/** MD5 of ngx_md5.c: init, any updates and final against the digest of RFC 1321. */
module Md5 {
  import opened Bytes
  import opened Md5Block

  // ----- Sections 3.1 to 3.5 of RFC 1321 ---------------------------------------------------------------------

  /** Word `n` of a block, low-order byte first. */
  function WordAt(block: seq<bv8>, n: nat): bv32
    requires n < 16 && |block| == 64
  {
    (block[4 * n] as bv32) | ((block[4 * n + 1] as bv32) << 8)
    | ((block[4 * n + 2] as bv32) << 16) | ((block[4 * n + 3] as bv32) << 24)
  }

  function Words(block: seq<bv8>): (x: seq<bv32>)
    requires |block| == 64
    ensures |x| == 16
  {
    seq(16, n requires 0 <= n < 16 => WordAt(block, n))
  }

  /** The state after whole blocks. */
  function Blocks(q: State, data: seq<bv8>): State
    requires |data| % 64 == 0
    decreases |data|
  {
    if data == [] then q
    else Transform(Blocks(q, data[..|data| - 64]), Words(data[|data| - 64..]))
  }

  const INITIAL := State(0x6745_2301, 0xefcd_ab89, 0x98ba_dcfe, 0x1032_5476)

  function Zeros(n: nat): (r: seq<bv8>)
    ensures |r| == n
  {
    seq(n, i => 0)
  }

  function Octet(b: Byte): bv8 {
    b as bv8
  }

  /** A 64-bit number, low-order byte first. */
  function EightBytes(v: nat): (r: seq<bv8>)
    ensures |r| == 8
  {
    var s := LittleEndian(v, 8);
    seq(8, i requires 0 <= i < 8 => Octet(s[i]))
  }

  /** How many zero bytes bring the length to 56 modulo 64. */
  function ZeroCount(n: nat): (z: nat)
    ensures (n + 1 + z + 8) % 64 == 0 && z < 64
  {
    var u := n % 64;
    var z := if u <= 55 then 55 - u else 119 - u;
    assert n + 1 + z + 8 == 64 * (n / 64 + if u <= 55 then 1 else 2);
    z
  }

  /** A one bit and zero bits up to 56 bytes of the last block, then the number of bits modulo 2^64. */
  function Padding(n: nat): (r: seq<bv8>)
    ensures (n + |r|) % 64 == 0
  {
    [0x80] + Zeros(ZeroCount(n)) + EightBytes(8 * n % TWO64)
  }

  function WordBytes(w: bv32): seq<bv8> {
    [(w & 0xff) as bv8, ((w >> 8) & 0xff) as bv8, ((w >> 16) & 0xff) as bv8, ((w >> 24) & 0xff) as bv8]
  }

  function Output(q: State): seq<bv8> {
    WordBytes(q.a) + WordBytes(q.b) + WordBytes(q.c) + WordBytes(q.d)
  }

  /** The digest of a message. */
  function Digest(msg: seq<bv8>): seq<bv8> {
    Output(Blocks(INITIAL, msg + Padding(|msg|)))
  }

  // ----- Blocks ----------------------------------------------------------------------------------------------

  lemma {:induction false} BlocksAppend(q: State, a: seq<bv8>, b: seq<bv8>)
    requires |a| % 64 == 0 && |b| % 64 == 0
    ensures Blocks(q, a + b) == Blocks(Blocks(q, a), b)
    decreases |b|
  {
    hide Transform, Words;
    if b == [] {
      assert a + b == a;
    } else {
      var c := b[..|b| - 64];
      assert (a + b)[..|a + b| - 64] == a + c && (a + b)[|a + b| - 64..] == b[|b| - 64..];
      BlocksAppend(q, a, c);
    }
  }

  lemma OneBlock(q: State, block: seq<bv8>)
    requires |block| == 64
    ensures Blocks(q, block) == Transform(q, Words(block))
  {
    hide Transform, Words;
    assert block[..0] == [] && block[0..] == block;
    assert Blocks(q, []) == q;
  }

  function Full(n: nat): (f: nat)
    ensures f <= n && f % 64 == 0 && n - f == n % 64
  {
    n - n % 64
  }

  // ----- The context -----------------------------------------------------------------------------------------

  /** `ngx_md5_t`; `msg` are the bytes it was given. */
  class Context {
    var bytes: nat
    var q: State
    const buffer: array<bv8>
    ghost var msg: seq<bv8>

    ghost predicate Valid()
      reads this, buffer
    {
      && buffer.Length == 64 && bytes == |msg| % TWO64
      && q == Blocks(INITIAL, msg[..Full(|msg|)])
      && buffer[..|msg| % 64] == msg[Full(|msg|)..]
    }

    /** `ngx_md5_init` of a new context. */
    constructor ()
      ensures Valid() && msg == [] && fresh(buffer)
    {
      bytes, q, msg := 0, INITIAL, [];
      buffer := new bv8[64];
    }

    /** `ngx_md5_body`. */
    method Body(data: seq<bv8>)
      requires |data| % 64 == 0 && |data| > 0
      modifies this`q
      ensures q == Blocks(old(q), data)
    {
      hide Blocks, Transform, Words;
      var p := 0;
      assert data[..0] == [];
      NoBlocks(q);
      while p < |data|
        invariant p <= |data| && p % 64 == 0 && q == Blocks(old(q), data[..p])
        decreases |data| - p
      {
        var block := data[p..p + 64];
        OneBlock(q, block);
        BlocksAppend(old(q), data[..p], block);
        assert data[..p + 64] == data[..p] + block;
        q := Block(q, Words(block));
        p := p + 64;
      }
      assert data[..p] == data;
    }

    /** The message grows: what is in the buffer comes before the new bytes. */
    lemma Grows(data: seq<bv8>, k: nat)
      requires Valid() && k % 64 == 0
      requires var t := buffer[..|msg| % 64] + data; k <= |t| < k + 64
      ensures var t := buffer[..|msg| % 64] + data;
        && Full(|msg + data|) == Full(|msg|) + k && |msg + data| % 64 == |t| - k
        && (msg + data)[Full(|msg + data|)..] == t[k..]
        && Blocks(INITIAL, (msg + data)[..Full(|msg + data|)]) == Blocks(q, t[..k])
    {
      hide Blocks, Full;
      MessageGrows(msg, buffer[..|msg| % 64], data, k);
    }

    /** Puts bytes behind the first `used` bytes of the buffer. */
    method Store(used: nat, s: seq<bv8>)
      requires buffer.Length == 64 && used + |s| <= 64
      modifies buffer
      ensures buffer[..used + |s|] == old(buffer[..used]) + s
    {
      ghost var front, tail := buffer[..used], buffer[used + |s|..];
      Copy(buffer, used, s);
      ghost var all := buffer[..];
      AppendSlices(front + s, tail, 0);
      assert buffer[..used + |s|] == all[..used + |s|];
    }

    /** The second half of an update: whole blocks are taken from the data, the rest is kept. */
    method TakeBlocks(rest: seq<bv8>)
      requires buffer.Length == 64
      modifies this`q, buffer
      ensures q == Blocks(old(q), rest[..Full(|rest|)])
      ensures buffer[..|rest| % 64] == rest[Full(|rest|)..]
    {
      hide Blocks;
      var n := |rest| - |rest| % 64;
      NoBlocks(q);
      assert rest[..0] == [];
      if |rest| >= 64 {
        Body(rest[..n]);
        Store(0, rest[n..]);
      } else {
        assert rest[0..] == rest;
        Store(0, rest);
      }
    }

    /** The block in the buffer is completed from the data and taken. */
    method Complete(data: seq<bv8>, used: nat)
      requires buffer.Length == 64 && used < 64 && 64 - used <= |data|
      modifies this`q, buffer
      ensures q == Blocks(old(q), old(buffer[..used]) + data[..64 - used])
    {
      hide Blocks;
      Store(used, data[..64 - used]);
      assert buffer[..] == buffer[..64];
      Body(buffer[..]);
    }

    /** The first part of an update: the block in the buffer is completed before others are taken. */
    method Feed(data: seq<bv8>, used: nat)
      requires buffer.Length == 64 && used < 64
      modifies this`q, buffer
      ensures var t := old(buffer[..used]) + data;
        q == Blocks(old(q), t[..Full(|t|)]) && buffer[..|t| % 64] == t[Full(|t|)..]
    {
      hide Blocks, Full;
      ghost var t, q0 := buffer[..used] + data, q;
      if used > 0 {
        var free := 64 - used;
        if |data| < free {
          ShortTail(t, q0);
          Store(used, data);
          return;
        }
        TwoParts(buffer[..used], data, q0);
        Complete(data, used);
        TakeBlocks(data[free..]);
        return;
      }
      assert t == data;
      TakeBlocks(data);
    }

    /** `ngx_md5_update`. */
    method Update(data: seq<bv8>)
      requires Valid()
      modifies this, buffer
      ensures Valid() && msg == old(msg) + data
    {
      hide Blocks, Full;
      Grows(data, Full(|msg| % 64 + |data|));
      Wraps(|msg|, |data|, bytes);
      var used := bytes % 64;
      bytes := (bytes + |data|) % TWO64;
      msg := msg + data;
      Feed(data, used);
    }

    /** The length field, byte by byte. */
    method StoreLength(bits: nat)
      requires buffer.Length == 64 && bits < TWO64
      modifies buffer
      ensures buffer[..] == old(buffer[..56]) + EightBytes(bits)
    {
      hide EightBytes, Octet;
      EightBytesAre(bits);
      var length := [
        Octet(bits % 256), Octet(bits / 0x100 % 256), Octet(bits / 0x1_0000 % 256), Octet(bits / 0x100_0000 % 256),
        Octet(bits / 0x1_0000_0000 % 256), Octet(bits / 0x100_0000_0000 % 256),
        Octet(bits / 0x1_0000_0000_0000 % 256), Octet(bits / 0x100_0000_0000_0000 % 256)];
      Store(56, length);
      assert buffer[..] == buffer[..64];
    }

    /** Completes the last block: padding from `used` on and the length. */
    method LastBlock(used: nat, bits: nat)
      requires buffer.Length == 64 && used <= 56 && bits < TWO64
      modifies buffer
      ensures buffer[..] == old(buffer[..used]) + Zeros(56 - used) + EightBytes(bits)
    {
      hide EightBytes;
      Store(used, Zeros(56 - used));
      StoreLength(bits);
    }

    /** `ngx_md5_final`: the digest of all the bytes; the context is cleared. */
    method Final() returns (result: seq<bv8>)
      requires Valid()
      modifies this, buffer
      ensures result == Digest(old(msg))
      ensures bytes == 0 && q == State(0, 0, 0, 0) && forall i | 0 <= i < buffer.Length :: buffer[i] == 0
    {
      hide Blocks, Full, Padding, EightBytes, Zeros, Output;
      ghost var tail, q0 := buffer[..|msg| % 64], q;
      ghost var t := tail + Padding(|msg|);
      WholeTail();
      Wraps(|msg|, 0, bytes);
      BitCount(|msg|, bytes);
      var bits := bytes * 8 % TWO64;
      var used := bytes % 64;
      Store(used, [0x80]);
      used := used + 1;
      var free := 64 - used;
      if free < 8 {
        Store(used, Zeros(free));
        assert buffer[..] == buffer[..64] == tail + [0x80] + Zeros(free);
        TwoPads(tail, |msg|, q0);
        Body(buffer[..]);
        used := 0;
        LastBlock(used, bits);
        assert buffer[..] == Zeros(56) + EightBytes(bits);
      } else {
        OnePad(tail, |msg|);
        LastBlock(used, bits);
      }
      Body(buffer[..]);
      result := Output(q);
      bytes, q := 0, State(0, 0, 0, 0);
      forall i | 0 <= i < 64 {
        buffer[i] := 0;
      }
    }

    /** The padded message ends with the padded tail. */
    lemma WholeTail()
      requires Valid()
      ensures var p := Padding(|msg|);
        (|buffer[..|msg| % 64] + p|) % 64 == 0 && Digest(msg) == Output(Blocks(q, buffer[..|msg| % 64] + p))
    {
      hide Blocks, Padding, Output, Full;
      var p := Padding(|msg|);
      var t := buffer[..|msg| % 64] + p;
      PadsTail(|msg|, |p|);
      Grows(p, |t|);
      FullOf(|msg + p|);
      assert t[..|t|] == t && (msg + p)[..|msg + p|] == msg + p;
    }
  }

  lemma FullOf(n: nat)
    requires n % 64 == 0
    ensures Full(n) == n
  {
  }

  lemma PadsTail(n: nat, m: nat)
    requires (n + m) % 64 == 0
    ensures (n % 64 + m) % 64 == 0
  {
    Remainder(n % 64 + m, (n + m) / 64 - n / 64, 0);
  }

  lemma FullGrows(n: nat, m: nat, k: nat)
    requires k % 64 == 0 && k <= n % 64 + m < k + 64
    ensures Full(n + m) == Full(n) + k && (n + m) % 64 == n % 64 + m - k
  {
    hide Full;
    Remainder(n + m, n / 64 + k / 64, n % 64 + m - k);
  }

  lemma Remainder(n: nat, d: nat, r: nat)
    requires n == 64 * d + r && r < 64
    ensures n % 64 == r
  {
  }

  lemma MessageGrows(msg: seq<bv8>, tail: seq<bv8>, data: seq<bv8>, k: nat)
    requires tail == msg[Full(|msg|)..] && k % 64 == 0 && k <= |tail + data| < k + 64
    ensures var t, all, n := tail + data, msg + data, Full(|msg + data|);
      && n == Full(|msg|) + k && |all| % 64 == |t| - k && all[n..] == t[k..]
      && Blocks(INITIAL, all[..n]) == Blocks(Blocks(INITIAL, msg[..Full(|msg|)]), t[..k])
  {
    hide Blocks, Full;
    var f := msg[..Full(|msg|)];
    FullGrows(|msg|, |data|, k);
    assert msg == f + tail;
    AppendAssoc(f, tail, data);
    AppendSlices(f, tail + data, k);
    BlocksAppend(INITIAL, f, (tail + data)[..k]);
  }

  lemma ShortTail(t: seq<bv8>, q: State)
    requires |t| < 64
    ensures Full(|t|) == 0 && t[0..] == t && Blocks(q, t[..0]) == q
  {
  }

  /** The first block of the tail is completed from the data. */
  lemma LongTail(t: seq<bv8>, data: seq<bv8>, used: nat)
    requires 0 < used < 64 && 64 - used <= |data| && |t| == used + |data| && t[used..] == data
    ensures t[..64] == t[..used] + data[..64 - used] && t[64..] == data[64 - used..]
  {
    SliceJoin(t, 0, used, 64);
    SliceOfSlice(t, used, |t|, 0, 64 - used);
    SliceOfSlice(t, used, |t|, 64 - used, |data|);
    assert t[0..64] == t[..64] && t[0..used] == t[..used] && t[used..] == t[used..|t|];
    assert data[..64 - used] == data[0..64 - used];
  }

  lemma FullStep(m: nat)
    ensures Full(64 + m) == 64 + Full(m) && (64 + m) % 64 == m % 64
  {
  }

  /** The blocks of the tail are its first block and those of the rest. */
  lemma LongBlocks(t: seq<bv8>, rest: seq<bv8>, n: nat, q: State)
    requires |t| >= 64 && rest == t[64..] && n <= |rest| && n % 64 == 0 && (64 + n) % 64 == 0
    ensures t[64 + n..] == rest[n..]
    ensures Blocks(q, t[..64 + n]) == Blocks(Blocks(q, t[..64]), rest[..n])
  {
    hide Blocks;
    AppendSlices(t[..64], rest, n);
    assert t == t[..64] + rest;
    BlocksAppend(q, t[..64], rest[..n]);
  }

  /** The message goes on with a completed block and the rest of the data. */
  lemma TwoParts(front: seq<bv8>, data: seq<bv8>, q: State)
    requires 0 < |front| < 64 && 64 - |front| <= |data|
    ensures var t, first, rest := front + data, front + data[..64 - |front|], data[64 - |front|..];
      && |t| % 64 == |rest| % 64 && t[Full(|t|)..] == rest[Full(|rest|)..]
      && Blocks(q, t[..Full(|t|)]) == Blocks(Blocks(q, first), rest[..Full(|rest|)])
  {
    hide Blocks, Full;
    var t, rest := front + data, data[64 - |front|..];
    AppendSlices(front, data, 0);
    LongTail(t, data, |front|);
    FullStep(|rest|);
    LongBlocks(t, rest, Full(|rest|), q);
  }

  lemma NoBlocks(q: State)
    ensures Blocks(q, []) == q
  {
  }

  lemma Wraps(n: nat, m: nat, bytes: nat)
    requires bytes == n % TWO64
    ensures bytes % 64 == n % 64 && (bytes + m) % TWO64 == (n + m) % TWO64
  {
    var d := n / TWO64;
    assert n == TWO64 * d + bytes;
    Multiple(bytes + m, d);
    Blockwise(bytes, TWO64 / 64 * d);
  }

  lemma Blockwise(a: nat, k: nat)
    ensures (64 * k + a) % 64 == a % 64
  {
    Remainder(64 * k + a, k + a / 64, a % 64);
  }

  lemma BitCount(n: nat, bytes: nat)
    requires bytes == n % TWO64
    ensures bytes * 8 % TWO64 == 8 * n % TWO64
  {
    assert 8 * n == 8 * bytes + TWO64 * (8 * (n / TWO64));
    Multiple(8 * bytes, 8 * (n / TWO64));
  }

  lemma Multiple(a: nat, k: nat)
    ensures (a + TWO64 * k) % TWO64 == a % TWO64
  {
  }

  lemma EightBytesAre(v: nat)
    requires v < TWO64
    ensures EightBytes(v) == [
      Octet(v % 256), Octet(v / 0x100 % 256), Octet(v / 0x1_0000 % 256), Octet(v / 0x100_0000 % 256),
      Octet(v / 0x1_0000_0000 % 256), Octet(v / 0x100_0000_0000 % 256),
      Octet(v / 0x1_0000_0000_0000 % 256), Octet(v / 0x100_0000_0000_0000 % 256)]
  {
    hide LittleEndian, Octet;
    LittleEndianAre(v);
  }

  lemma LittleEndianAre(v: nat)
    ensures LittleEndian(v, 8) == [
      v % 256, v / 0x100 % 256, v / 0x1_0000 % 256, v / 0x100_0000 % 256, v / 0x1_0000_0000 % 256,
      v / 0x100_0000_0000 % 256, v / 0x1_0000_0000_0000 % 256, v / 0x100_0000_0000_0000 % 256]
  {
    assert v / 0x100 / 256 == v / 0x1_0000 && v / 0x1_0000 / 256 == v / 0x100_0000;
    assert v / 0x100_0000 / 256 == v / 0x1_0000_0000 && v / 0x1_0000_0000 / 256 == v / 0x100_0000_0000;
    assert v / 0x100_0000_0000 / 256 == v / 0x1_0000_0000_0000;
    assert v / 0x1_0000_0000_0000 / 256 == v / 0x100_0000_0000_0000;
    assert LittleEndian(v / 0x1_0000_0000_0000, 2)
        == [v / 0x1_0000_0000_0000 % 256, v / 0x100_0000_0000_0000 % 256];
    assert LittleEndian(v / 0x1_0000_0000, 4)
        == [v / 0x1_0000_0000 % 256, v / 0x100_0000_0000 % 256] + LittleEndian(v / 0x1_0000_0000_0000, 2);
    assert LittleEndian(v / 0x1_0000, 6)
        == [v / 0x1_0000 % 256, v / 0x100_0000 % 256] + LittleEndian(v / 0x1_0000_0000, 4);
    assert LittleEndian(v, 8) == [v % 256, v / 0x100 % 256] + LittleEndian(v / 0x1_0000, 6);
  }

  lemma ZerosAdd(a: nat, b: nat)
    ensures Zeros(a) + Zeros(b) == Zeros(a + b)
  {
  }

  /** The padding fits into the last block. */
  lemma OnePad(tail: seq<bv8>, n: nat)
    requires |tail| == n % 64 && |tail| <= 55
    ensures tail + Padding(n) == tail + [0x80] + Zeros(55 - |tail|) + EightBytes(8 * n % TWO64)
  {
    hide Zeros, EightBytes;
  }

  /** It takes another block. */
  lemma TwoPads(tail: seq<bv8>, n: nat, q: State)
    requires |tail| == n % 64 && |tail| > 55
    ensures (|tail + Padding(n)|) % 64 == 0
    ensures Blocks(q, tail + Padding(n))
         == Blocks(Blocks(q, tail + [0x80] + Zeros(63 - |tail|)), Zeros(56) + EightBytes(8 * n % TWO64))
  {
    hide Zeros, EightBytes, Blocks;
    ZerosAdd(63 - |tail|, 56);
    var a, b := tail + [0x80] + Zeros(63 - |tail|), Zeros(56) + EightBytes(8 * n % TWO64);
    assert tail + Padding(n) == a + b;
    BlocksAppend(q, a, b);
  }

  /** However a message is split, init, an update for each part and final give its digest. */
  method Hash(chunks: seq<seq<bv8>>) returns (result: seq<bv8>)
    ensures result == Digest(Concat(chunks))
  {
    hide Digest, Blocks, Full, Concat;
    var ctx := new Context();
    NoChunks(chunks);
    for i := 0 to |chunks|
      invariant ctx.Valid() && fresh(ctx) && fresh(ctx.buffer)
      invariant ctx.msg == Concat(chunks[..i])
    {
      NextChunk(chunks, i);
      ctx.Update(chunks[i]);
    }
    assert chunks[..|chunks|] == chunks;
    result := ctx.Final();
  }

  lemma NoChunks(chunks: seq<seq<bv8>>)
    ensures Concat(chunks[..0]) == []
  {
  }

  lemma NextChunk(chunks: seq<seq<bv8>>, i: nat)
    requires i < |chunks|
    ensures Concat(chunks[..i + 1]) == Concat(chunks[..i]) + chunks[i]
  {
    assert chunks[..i + 1][..i] == chunks[..i];
  }

  function Concat(chunks: seq<seq<bv8>>): seq<bv8> {
    if chunks == [] then [] else Concat(chunks[..|chunks| - 1]) + chunks[|chunks| - 1]
  }
}
