/** Two of the values in section A.5 of RFC 1321, worked out step by step. */
module Md5Vectors {
  import opened Bytes
  import opened Md5Block
  import opened Md5

  /** Step `i` gives the register value `v`. */
  ghost predicate Yields(x: seq<bv32>, i: nat, q: State, v: bv32)
    requires |x| == 16 && i < 64
  {
    v == Turn(Mix(i, q.b, q.c, q.d), q.a, q.b, x[WordOf(i)], Sine(i), RotationOf(i))
  }

  lemma Four(x: seq<bv32>, i: nat, r: State, q: State, v0: bv32, v1: bv32, v2: bv32, v3: bv32)
    requires |x| == 16 && i <= 60 && q == Steps(x, i, r)
    requires Yields(x, i, q, v0) && Yields(x, i + 1, State(q.d, v0, q.b, q.c), v1)
    requires Yields(x, i + 2, State(q.c, v1, v0, q.b), v2) && Yields(x, i + 3, State(q.b, v2, v1, v0), v3)
    ensures Steps(x, i + 4, r) == State(v0, v3, v2, v1)
  {
    hide Turn, Mix, WordOf, Sine, RotationOf;
    assert Steps(x, i + 1, r) == State(q.d, v0, q.b, q.c);
    assert Steps(x, i + 2, r) == State(q.c, v1, v0, q.b);
    assert Steps(x, i + 3, r) == State(q.b, v2, v1, v0);
  }

  lemma NoSteps(x: seq<bv32>, r: State)
    requires |x| == 16
    ensures Steps(x, 0, r) == r
  {
  }

  lemma WordIs(block: seq<bv8>, n: nat, b0: bv8, b1: bv8, b2: bv8, b3: bv8)
    requires |block| == 64 && n < 16
    requires block[4 * n] == b0 && block[4 * n + 1] == b1 && block[4 * n + 2] == b2 && block[4 * n + 3] == b3
    ensures Words(block)[n]
         == (b0 as bv32) | ((b1 as bv32) << 8) | ((b2 as bv32) << 16) | ((b3 as bv32) << 24)
  {
  }

  /** The length fields. */
  lemma NoLength()
    ensures EightBytes(0) == [0, 0, 0, 0, 0, 0, 0, 0]
  {
    hide EightBytes;
    EightBytesAre(0);
  }

  lemma Length496()
    ensures EightBytes(496) == [0xf0, 1, 0, 0, 0, 0, 0, 0]
  {
    hide EightBytes, Octet;
    EightBytesAre(496);
    assert Octet(240) == 0xf0 && Octet(1) == 1 && Octet(0) == 0 by { Octets(); }
  }

  lemma Octets()
    ensures Octet(240) == 0xf0 && Octet(1) == 1 && Octet(0) == 0
  {
  }

  lemma OutputIs(q: State, a: seq<bv8>, b: seq<bv8>, c: seq<bv8>, d: seq<bv8>)
    requires a == WordBytes(q.a) && b == WordBytes(q.b) && c == WordBytes(q.c) && d == WordBytes(q.d)
    ensures Output(q) == a + b + c + d
  {
  }

  // ----- The empty message --------------------------------------------------------------------------------------

  /** The words of the padded message. */
  ghost predicate IsEmpty(x: seq<bv32>) {
    && |x| == 16
    && x[0] == 0x00000080 && x[1] == 0x00000000 && x[2] == 0x00000000 && x[3] == 0x00000000
    && x[4] == 0x00000000 && x[5] == 0x00000000 && x[6] == 0x00000000 && x[7] == 0x00000000
    && x[8] == 0x00000000 && x[9] == 0x00000000 && x[10] == 0x00000000 && x[11] == 0x00000000
    && x[12] == 0x00000000 && x[13] == 0x00000000 && x[14] == 0x00000000 && x[15] == 0x00000000
  }

  lemma Empty16(x: seq<bv32>, r: State)
    requires IsEmpty(x) && r == State(0x67452301, 0xefcdab89, 0x98badcfe, 0x10325476)
    ensures Steps(x, 16, r) == State(0xf56c7cf1, 0xd6819c6a, 0x5aa53f75, 0x374943a7)
  {
    hide Steps, WordOf, Sine, RotationOf;
    NoSteps(x, r);
    Operands0();
    Four(x, 0, r, State(0x67452301, 0xefcdab89, 0x98badcfe, 0x10325476),
         0xa5202774, 0xf59592dd, 0xe7f06b23, 0x1b163203);
    Four(x, 4, r, State(0xa5202774, 0x1b163203, 0xe7f06b23, 0xf59592dd),
         0x32033344, 0x2f35d494, 0xf5b158db, 0x9bc13ce9);
    Operands8();
    Four(x, 8, r, State(0x32033344, 0x9bc13ce9, 0xf5b158db, 0x2f35d494),
         0x3893b991, 0xfce4a312, 0xe1ef0576, 0x70768a29);
    Four(x, 12, r, State(0x3893b991, 0x70768a29, 0xe1ef0576, 0xfce4a312),
         0xf56c7cf1, 0x374943a7, 0x5aa53f75, 0xd6819c6a);
  }

  lemma Empty32(x: seq<bv32>, r: State)
    requires IsEmpty(x) && r == State(0x67452301, 0xefcdab89, 0x98badcfe, 0x10325476)
    ensures Steps(x, 32, r) == State(0x13707036, 0xa2205f1f, 0x1c31c384, 0xae7813db)
  {
    hide Steps, WordOf, Sine, RotationOf;
    Empty16(x, r);
    Operands16();
    Four(x, 16, r, State(0xf56c7cf1, 0xd6819c6a, 0x5aa53f75, 0x374943a7),
         0x1c7d7513, 0x7bd57a3a, 0xc095f13a, 0xbd782e17);
    Four(x, 20, r, State(0x1c7d7513, 0xbd782e17, 0xc095f13a, 0x7bd57a3a),
         0x3d1e3e6c, 0x68b7b3e3, 0xeb41643e, 0xe422531a);
    Operands24();
    Four(x, 24, r, State(0x3d1e3e6c, 0xe422531a, 0xeb41643e, 0x68b7b3e3),
         0x306ec122, 0xd28c77c2, 0xa3c663da, 0xa0572807);
    Four(x, 28, r, State(0x306ec122, 0xa0572807, 0xa3c663da, 0xd28c77c2),
         0x13707036, 0xae7813db, 0x1c31c384, 0xa2205f1f);
  }

  lemma Empty48(x: seq<bv32>, r: State)
    requires IsEmpty(x) && r == State(0x67452301, 0xefcdab89, 0x98badcfe, 0x10325476)
    ensures Steps(x, 48, r) == State(0x3f55edfd, 0xca7d2dbd, 0x68d84ea2, 0x22a31f54)
  {
    hide Steps, WordOf, Sine, RotationOf;
    Empty32(x, r);
    Operands32();
    Four(x, 32, r, State(0x13707036, 0xa2205f1f, 0x1c31c384, 0xae7813db),
         0xdf63eaa1, 0xc3689f5b, 0x12f3e755, 0x004b6669);
    Four(x, 36, r, State(0xdf63eaa1, 0x004b6669, 0x12f3e755, 0xc3689f5b),
         0x5f7a9b2e, 0xabc34e16, 0x91ca4cb7, 0xc5dc8c15);
    Operands40();
    Four(x, 40, r, State(0x5f7a9b2e, 0xc5dc8c15, 0x91ca4cb7, 0xabc34e16),
         0x4497169d, 0x76fd93d4, 0xfd95f243, 0x0fe32453);
    Four(x, 44, r, State(0x4497169d, 0x0fe32453, 0xfd95f243, 0x76fd93d4),
         0x3f55edfd, 0x22a31f54, 0x68d84ea2, 0xca7d2dbd);
  }

  lemma Empty64(x: seq<bv32>, r: State)
    requires IsEmpty(x) && r == State(0x67452301, 0xefcdab89, 0x98badcfe, 0x10325476)
    ensures Steps(x, 64, r) == State(0x7246fad3, 0x14e45506, 0xff4ea3eb, 0x6e10a476)
  {
    hide Steps, WordOf, Sine, RotationOf;
    Empty48(x, r);
    Operands48();
    Four(x, 48, r, State(0x3f55edfd, 0xca7d2dbd, 0x68d84ea2, 0x22a31f54),
         0x93aa2577, 0x1688dc85, 0xcd85b8cb, 0x561e0689);
    Four(x, 52, r, State(0x93aa2577, 0x561e0689, 0xcd85b8cb, 0x1688dc85),
         0x5625a114, 0x3450f42b, 0x392ad0d0, 0x1e77fa61);
    Operands56();
    Four(x, 56, r, State(0x5625a114, 0x1e77fa61, 0x392ad0d0, 0x3450f42b),
         0x474a9c8c, 0xdfce00bc, 0x36594b14, 0x30130182);
    Four(x, 60, r, State(0x474a9c8c, 0x30130182, 0x36594b14, 0xdfce00bc),
         0x7246fad3, 0x6e10a476, 0xff4ea3eb, 0x14e45506);
  }

  lemma EmptyTransform(x: seq<bv32>, r: State)
    requires IsEmpty(x) && r == State(0x67452301, 0xefcdab89, 0x98badcfe, 0x10325476)
    ensures Transform(r, x) == State(0xd98c1dd4, 0x04b2008f, 0x980980e9, 0x7e42f8ec)
  {
    hide Steps;
    Empty64(x, r);
  }

  lemma EmptyWords(block: seq<bv8>)
    requires |block| == 64 && block[0] == 0x80 && forall i | 1 <= i < 64 :: block[i] == 0
    ensures IsEmpty(Words(block))
  {
    hide Words;
    WordIs(block, 0, 0x80, 0, 0, 0);
    forall n | 1 <= n < 16
      ensures Words(block)[n] == 0
    {
      WordIs(block, n, 0, 0, 0, 0);
    }
  }

  lemma EmptyPadding()
    ensures var p := Padding(0);
      |p| == 64 && p[0] == 0x80 && forall i | 1 <= i < 64 :: p[i] == 0
  {
    hide EightBytes;
    NoLength();
  }

  lemma EmptyOutput(q: State)
    requires q == State(0xd98c1dd4, 0x04b2008f, 0x980980e9, 0x7e42f8ec)
    ensures Output(q) == [
      0xd4, 0x1d, 0x8c, 0xd9, 0x8f, 0x00, 0xb2, 0x04,
      0xe9, 0x80, 0x09, 0x98, 0xec, 0xf8, 0x42, 0x7e]
  {
    OutputIs(q, [0xd4, 0x1d, 0x8c, 0xd9], [0x8f, 0x00, 0xb2, 0x04],
             [0xe9, 0x80, 0x09, 0x98], [0xec, 0xf8, 0x42, 0x7e]);
  }

  /** MD5("") = d41d8cd98f00b204e9800998ecf8427e. */
  lemma EmptyMessage()
    ensures Digest([]) == [
      0xd4, 0x1d, 0x8c, 0xd9, 0x8f, 0x00, 0xb2, 0x04,
      0xe9, 0x80, 0x09, 0x98, 0xec, 0xf8, 0x42, 0x7e]
  {
    hide Blocks, Words, Transform, Padding, Output, IsEmpty;
    var p := Padding(0);
    EmptyPadding();
    EmptyWords(p);
    OneBlock(INITIAL, p);
    EmptyTransform(Words(p), INITIAL);
    assert [] + p == p;
    EmptyOutput(State(0xd98c1dd4, 0x04b2008f, 0x980980e9, 0x7e42f8ec));
  }

  // ----- "A" to "Z", "a" to "z" and "0" to "9" ------------------------------------------------------------------

  /** The words of the 62 letters and digits with the padding byte. */
  ghost predicate IsFirst(x: seq<bv32>) {
    && |x| == 16
    && x[0] == 0x44434241 && x[1] == 0x48474645 && x[2] == 0x4c4b4a49 && x[3] == 0x504f4e4d
    && x[4] == 0x54535251 && x[5] == 0x58575655 && x[6] == 0x62615a59 && x[7] == 0x66656463
    && x[8] == 0x6a696867 && x[9] == 0x6e6d6c6b && x[10] == 0x7271706f && x[11] == 0x76757473
    && x[12] == 0x7a797877 && x[13] == 0x33323130 && x[14] == 0x37363534 && x[15] == 0x00803938
  }

  lemma First16(x: seq<bv32>, r: State)
    requires IsFirst(x) && r == State(0x67452301, 0xefcdab89, 0x98badcfe, 0x10325476)
    ensures Steps(x, 16, r) == State(0x3cbdcd45, 0x5d38e690, 0xfa148c8a, 0xb8dec763)
  {
    hide Steps, WordOf, Sine, RotationOf;
    NoSteps(x, r);
    Operands0();
    Four(x, 0, r, State(0x67452301, 0xefcdab89, 0x98badcfe, 0x10325476),
         0xc6c10796, 0x99a09999, 0x11067980, 0x27bce07a);
    Four(x, 4, r, State(0xc6c10796, 0x27bce07a, 0x11067980, 0x99a09999),
         0xf22e6c4e, 0xb4ac9218, 0xa95a2fc0, 0xa4799506);
    Operands8();
    Four(x, 8, r, State(0xf22e6c4e, 0xa4799506, 0xa95a2fc0, 0xb4ac9218),
         0x1eb3e7c1, 0xa6e70cfe, 0xca27520b, 0x8a7612ec);
    Four(x, 12, r, State(0x1eb3e7c1, 0x8a7612ec, 0xca27520b, 0xa6e70cfe),
         0x3cbdcd45, 0xb8dec763, 0xfa148c8a, 0x5d38e690);
  }

  lemma First32(x: seq<bv32>, r: State)
    requires IsFirst(x) && r == State(0x67452301, 0xefcdab89, 0x98badcfe, 0x10325476)
    ensures Steps(x, 32, r) == State(0x9b085fa9, 0xdd789ecc, 0x5993248f, 0x4400a9bd)
  {
    hide Steps, WordOf, Sine, RotationOf;
    First16(x, r);
    Operands16();
    Four(x, 16, r, State(0x3cbdcd45, 0x5d38e690, 0xfa148c8a, 0xb8dec763),
         0x04b9d52a, 0x783002eb, 0xd3ee3ed1, 0x47ae7c81);
    Four(x, 20, r, State(0x04b9d52a, 0x47ae7c81, 0xd3ee3ed1, 0x783002eb),
         0x2d7d8a3f, 0xd1210823, 0x4b534dc3, 0x75292030);
    Operands24();
    Four(x, 24, r, State(0x2d7d8a3f, 0x75292030, 0x4b534dc3, 0xd1210823),
         0x9d2a6e33, 0x0e8d2e44, 0xd473b564, 0xf2ff6ea0);
    Four(x, 28, r, State(0x9d2a6e33, 0xf2ff6ea0, 0xd473b564, 0x0e8d2e44),
         0x9b085fa9, 0x4400a9bd, 0x5993248f, 0xdd789ecc);
  }

  lemma First48(x: seq<bv32>, r: State)
    requires IsFirst(x) && r == State(0x67452301, 0xefcdab89, 0x98badcfe, 0x10325476)
    ensures Steps(x, 48, r) == State(0x2dbee21d, 0xf166f514, 0xee46e961, 0xe95c3a43)
  {
    hide Steps, WordOf, Sine, RotationOf;
    First32(x, r);
    Operands32();
    Four(x, 32, r, State(0x9b085fa9, 0xdd789ecc, 0x5993248f, 0x4400a9bd),
         0x21c8d2b7, 0x1d55a18e, 0x056ec119, 0x1b9504f8);
    Four(x, 36, r, State(0x21c8d2b7, 0x1b9504f8, 0x056ec119, 0x1d55a18e),
         0x436b7fe9, 0x075800c1, 0xf404c2f6, 0xcf0341ed);
    Operands40();
    Four(x, 40, r, State(0x436b7fe9, 0xcf0341ed, 0xf404c2f6, 0x075800c1),
         0x888e7d8a, 0xbbdaecd8, 0xce620273, 0x047b9419);
    Four(x, 44, r, State(0x888e7d8a, 0x047b9419, 0xce620273, 0xbbdaecd8),
         0x2dbee21d, 0xe95c3a43, 0xee46e961, 0xf166f514);
  }

  lemma First64(x: seq<bv32>, r: State)
    requires IsFirst(x) && r == State(0x67452301, 0xefcdab89, 0x98badcfe, 0x10325476)
    ensures Steps(x, 64, r) == State(0x1cb80f0a, 0xef2e3a46, 0x10f68731, 0xea3d3eb4)
  {
    hide Steps, WordOf, Sine, RotationOf;
    First48(x, r);
    Operands48();
    Four(x, 48, r, State(0x2dbee21d, 0xf166f514, 0xee46e961, 0xe95c3a43),
         0xe47fd4f3, 0xfb887751, 0xf22aedcc, 0x7a13bc5c);
    Four(x, 52, r, State(0xe47fd4f3, 0x7a13bc5c, 0xf22aedcc, 0xfb887751),
         0xa691d430, 0x528452f2, 0x3fc23df6, 0xefb0e72f);
    Operands56();
    Four(x, 56, r, State(0xa691d430, 0xefb0e72f, 0x3fc23df6, 0x528452f2),
         0x27145703, 0x21a11069, 0x374fbe79, 0x49d9a5b4);
    Four(x, 60, r, State(0x27145703, 0x49d9a5b4, 0x374fbe79, 0x21a11069),
         0x1cb80f0a, 0xea3d3eb4, 0x10f68731, 0xef2e3a46);
  }

  lemma FirstTransform(x: seq<bv32>, r: State)
    requires IsFirst(x) && r == State(0x67452301, 0xefcdab89, 0x98badcfe, 0x10325476)
    ensures Transform(r, x) == State(0x83fd320b, 0xdefbe5cf, 0xa9b1642f, 0xfa6f932a)
  {
    hide Steps;
    First64(x, r);
  }

  /** The words of the zeros and the length. */
  ghost predicate IsSecond(x: seq<bv32>) {
    && |x| == 16
    && x[0] == 0x00000000 && x[1] == 0x00000000 && x[2] == 0x00000000 && x[3] == 0x00000000
    && x[4] == 0x00000000 && x[5] == 0x00000000 && x[6] == 0x00000000 && x[7] == 0x00000000
    && x[8] == 0x00000000 && x[9] == 0x00000000 && x[10] == 0x00000000 && x[11] == 0x00000000
    && x[12] == 0x00000000 && x[13] == 0x00000000 && x[14] == 0x000001f0 && x[15] == 0x00000000
  }

  lemma Second16(x: seq<bv32>, r: State)
    requires IsSecond(x) && r == State(0x83fd320b, 0xdefbe5cf, 0xa9b1642f, 0xfa6f932a)
    ensures Steps(x, 16, r) == State(0xa70737da, 0xa36f556f, 0x96f6586e, 0x5473f8a7)
  {
    hide Steps, WordOf, Sine, RotationOf;
    NoSteps(x, r);
    Operands0();
    Four(x, 0, r, State(0x83fd320b, 0xdefbe5cf, 0xa9b1642f, 0xfa6f932a),
         0xeda23ed1, 0x989939cf, 0x3c307338, 0xddcf0634);
    Four(x, 4, r, State(0xeda23ed1, 0xddcf0634, 0x3c307338, 0x989939cf),
         0x75144433, 0xc8875807, 0xc783cb60, 0x99b6b699);
    Operands8();
    Four(x, 8, r, State(0x75144433, 0x99b6b699, 0xc783cb60, 0xc8875807),
         0xa60a3f69, 0xaa6630be, 0x64db26e9, 0x64cc7c5a);
    Four(x, 12, r, State(0xa60a3f69, 0x64cc7c5a, 0x64db26e9, 0xaa6630be),
         0xa70737da, 0x5473f8a7, 0x96f6586e, 0xa36f556f);
  }

  lemma Second32(x: seq<bv32>, r: State)
    requires IsSecond(x) && r == State(0x83fd320b, 0xdefbe5cf, 0xa9b1642f, 0xfa6f932a)
    ensures Steps(x, 32, r) == State(0x24eba695, 0x9c03e2e8, 0x10c42a2f, 0x4bd0378b)
  {
    hide Steps, WordOf, Sine, RotationOf;
    Second16(x, r);
    Operands16();
    Four(x, 16, r, State(0xa70737da, 0xa36f556f, 0x96f6586e, 0x5473f8a7),
         0xa5050ad3, 0x28776046, 0x27dcd8b4, 0x82b8827c);
    Four(x, 20, r, State(0xa5050ad3, 0x82b8827c, 0x27dcd8b4, 0x28776046),
         0xe04f070c, 0x2f3cd2a2, 0xc0d22b61, 0xdf35cb56);
    Operands24();
    Four(x, 24, r, State(0xe04f070c, 0xdf35cb56, 0xc0d22b61, 0x2f3cd2a2),
         0x242dd210, 0x576ace33, 0x5c295967, 0x2291191a);
    Four(x, 28, r, State(0x242dd210, 0x2291191a, 0x5c295967, 0x576ace33),
         0x24eba695, 0x4bd0378b, 0x10c42a2f, 0x9c03e2e8);
  }

  lemma Second48(x: seq<bv32>, r: State)
    requires IsSecond(x) && r == State(0x83fd320b, 0xdefbe5cf, 0xa9b1642f, 0xfa6f932a)
    ensures Steps(x, 48, r) == State(0x54c9eb3a, 0x79c0710a, 0x2ec86f72, 0xd4d9c6ac)
  {
    hide Steps, WordOf, Sine, RotationOf;
    Second32(x, r);
    Operands32();
    Four(x, 32, r, State(0x24eba695, 0x9c03e2e8, 0x10c42a2f, 0x4bd0378b),
         0x5be1d526, 0x9e414279, 0x9f4a1a7e, 0xa2448453);
    Four(x, 36, r, State(0x5be1d526, 0xa2448453, 0x9f4a1a7e, 0x9e414279),
         0xe14e403d, 0xe8cfd670, 0x60cc183a, 0xfe314121);
    Operands40();
    Four(x, 40, r, State(0xe14e403d, 0xfe314121, 0x60cc183a, 0xe8cfd670),
         0xfff62809, 0xe37209ac, 0x8cb5221c, 0x7c7e974c);
    Four(x, 44, r, State(0xfff62809, 0x7c7e974c, 0x8cb5221c, 0xe37209ac),
         0x54c9eb3a, 0xd4d9c6ac, 0x2ec86f72, 0x79c0710a);
  }

  lemma Second64(x: seq<bv32>, r: State)
    requires IsSecond(x) && r == State(0x83fd320b, 0xdefbe5cf, 0xa9b1642f, 0xfa6f932a)
    ensures Steps(x, 64, r) == State(0x14ae42c6, 0x16dd9203, 0x826afd76, 0xa52dae75)
  {
    hide Steps, WordOf, Sine, RotationOf;
    Second48(x, r);
    Operands48();
    Four(x, 48, r, State(0x54c9eb3a, 0x79c0710a, 0x2ec86f72, 0xd4d9c6ac),
         0x02095af1, 0x13d245fd, 0xa8dcfe26, 0x2ba98e3f);
    Four(x, 52, r, State(0x02095af1, 0x2ba98e3f, 0xa8dcfe26, 0x13d245fd),
         0xe126c1aa, 0x96b00fa7, 0x6f287ff5, 0xfb7bcee0);
    Operands56();
    Four(x, 56, r, State(0xe126c1aa, 0xfb7bcee0, 0x6f287ff5, 0x96b00fa7),
         0x452c1099, 0xca801ba6, 0xc197ea8e, 0x5ac74608);
    Four(x, 60, r, State(0x452c1099, 0x5ac74608, 0xc197ea8e, 0xca801ba6),
         0x14ae42c6, 0xa52dae75, 0x826afd76, 0x16dd9203);
  }

  lemma SecondTransform(x: seq<bv32>, r: State)
    requires IsSecond(x) && r == State(0x83fd320b, 0xdefbe5cf, 0xa9b1642f, 0xfa6f932a)
    ensures Transform(r, x) == State(0x98ab74d1, 0xf5d977d2, 0x2c1c61a5, 0x9f9d419f)
  {
    hide Steps;
    Second64(x, r);
  }

  lemma FirstWords0(block: seq<bv8>, part: seq<bv8>)
    requires |block| == 64 && block[0..8] == part && part == [0x41, 0x42, 0x43, 0x44, 0x45, 0x46, 0x47, 0x48]
    ensures Words(block)[0] == 0x44434241 && Words(block)[1] == 0x48474645
  {
    hide WordAt, Words;
    Shown(block, 0, part);
    WordIs(block, 0, 0x41, 0x42, 0x43, 0x44);
    WordIs(block, 1, 0x45, 0x46, 0x47, 0x48);
  }

  lemma FirstWords1(block: seq<bv8>, part: seq<bv8>)
    requires |block| == 64 && block[8..16] == part && part == [0x49, 0x4a, 0x4b, 0x4c, 0x4d, 0x4e, 0x4f, 0x50]
    ensures Words(block)[2] == 0x4c4b4a49 && Words(block)[3] == 0x504f4e4d
  {
    hide WordAt, Words;
    Shown(block, 8, part);
    WordIs(block, 2, 0x49, 0x4a, 0x4b, 0x4c);
    WordIs(block, 3, 0x4d, 0x4e, 0x4f, 0x50);
  }

  lemma FirstWords2(block: seq<bv8>, part: seq<bv8>)
    requires |block| == 64 && block[16..24] == part && part == [0x51, 0x52, 0x53, 0x54, 0x55, 0x56, 0x57, 0x58]
    ensures Words(block)[4] == 0x54535251 && Words(block)[5] == 0x58575655
  {
    hide WordAt, Words;
    Shown(block, 16, part);
    WordIs(block, 4, 0x51, 0x52, 0x53, 0x54);
    WordIs(block, 5, 0x55, 0x56, 0x57, 0x58);
  }

  lemma FirstWords3(block: seq<bv8>, part: seq<bv8>)
    requires |block| == 64 && block[24..32] == part && part == [0x59, 0x5a, 0x61, 0x62, 0x63, 0x64, 0x65, 0x66]
    ensures Words(block)[6] == 0x62615a59 && Words(block)[7] == 0x66656463
  {
    hide WordAt, Words;
    Shown(block, 24, part);
    WordIs(block, 6, 0x59, 0x5a, 0x61, 0x62);
    WordIs(block, 7, 0x63, 0x64, 0x65, 0x66);
  }

  lemma FirstWords4(block: seq<bv8>, part: seq<bv8>)
    requires |block| == 64 && block[32..40] == part && part == [0x67, 0x68, 0x69, 0x6a, 0x6b, 0x6c, 0x6d, 0x6e]
    ensures Words(block)[8] == 0x6a696867 && Words(block)[9] == 0x6e6d6c6b
  {
    hide WordAt, Words;
    Shown(block, 32, part);
    WordIs(block, 8, 0x67, 0x68, 0x69, 0x6a);
    WordIs(block, 9, 0x6b, 0x6c, 0x6d, 0x6e);
  }

  lemma FirstWords5(block: seq<bv8>, part: seq<bv8>)
    requires |block| == 64 && block[40..48] == part && part == [0x6f, 0x70, 0x71, 0x72, 0x73, 0x74, 0x75, 0x76]
    ensures Words(block)[10] == 0x7271706f && Words(block)[11] == 0x76757473
  {
    hide WordAt, Words;
    Shown(block, 40, part);
    WordIs(block, 10, 0x6f, 0x70, 0x71, 0x72);
    WordIs(block, 11, 0x73, 0x74, 0x75, 0x76);
  }

  lemma FirstWords6(block: seq<bv8>, part: seq<bv8>)
    requires |block| == 64 && block[48..56] == part && part == [0x77, 0x78, 0x79, 0x7a, 0x30, 0x31, 0x32, 0x33]
    ensures Words(block)[12] == 0x7a797877 && Words(block)[13] == 0x33323130
  {
    hide WordAt, Words;
    Shown(block, 48, part);
    WordIs(block, 12, 0x77, 0x78, 0x79, 0x7a);
    WordIs(block, 13, 0x30, 0x31, 0x32, 0x33);
  }

  lemma FirstWords7(block: seq<bv8>, part: seq<bv8>)
    requires |block| == 64 && block[56..64] == part && part == [0x34, 0x35, 0x36, 0x37, 0x38, 0x39, 0x80, 0x00]
    ensures Words(block)[14] == 0x37363534 && Words(block)[15] == 0x00803938
  {
    hide WordAt, Words;
    Shown(block, 56, part);
    WordIs(block, 14, 0x34, 0x35, 0x36, 0x37);
    WordIs(block, 15, 0x38, 0x39, 0x80, 0x00);
  }

  lemma Shown(block: seq<bv8>, p: nat, part: seq<bv8>)
    requires p + 8 <= |block| && block[p..p + 8] == part
    ensures block[p] == part[0] && block[p + 1] == part[1] && block[p + 2] == part[2] && block[p + 3] == part[3]
    ensures block[p + 4] == part[4] && block[p + 5] == part[5] && block[p + 6] == part[6] && block[p + 7] == part[7]
  {
  }

  lemma LastRow()
    ensures [0x34, 0x35, 0x36, 0x37, 0x38, 0x39] + [0x80, 0] == [0x34, 0x35, 0x36, 0x37, 0x38, 0x39, 0x80, 0x00]
  {
  }

  lemma SliceKept(a: seq<bv8>, b: seq<bv8>, i: nat, j: nat)
    requires i <= j <= |a|
    ensures (a + b)[i..j] == a[i..j] && (a + b)[i..|a| + |b|] == a[i..] + b
  {
  }

  lemma LettersFirst(msg: seq<bv8>)
    requires |msg| == 62
    requires msg[0..8] == [0x41, 0x42, 0x43, 0x44, 0x45, 0x46, 0x47, 0x48]
    requires msg[8..16] == [0x49, 0x4a, 0x4b, 0x4c, 0x4d, 0x4e, 0x4f, 0x50]
    requires msg[16..24] == [0x51, 0x52, 0x53, 0x54, 0x55, 0x56, 0x57, 0x58]
    requires msg[24..32] == [0x59, 0x5a, 0x61, 0x62, 0x63, 0x64, 0x65, 0x66]
    requires msg[32..40] == [0x67, 0x68, 0x69, 0x6a, 0x6b, 0x6c, 0x6d, 0x6e]
    requires msg[40..48] == [0x6f, 0x70, 0x71, 0x72, 0x73, 0x74, 0x75, 0x76]
    requires msg[48..56] == [0x77, 0x78, 0x79, 0x7a, 0x30, 0x31, 0x32, 0x33]
    requires msg[56..62] == [0x34, 0x35, 0x36, 0x37, 0x38, 0x39]
    ensures IsFirst(Words(msg + [0x80, 0]))
  {
    hide Words;
    var block := msg + [0x80, 0];
    LastRow();
    assert msg[56..] == msg[56..62];
    SliceKept(msg, [0x80, 0], 0, 8);
    FirstWords0(block, block[0..8]);
    SliceKept(msg, [0x80, 0], 8, 16);
    FirstWords1(block, block[8..16]);
    SliceKept(msg, [0x80, 0], 16, 24);
    FirstWords2(block, block[16..24]);
    SliceKept(msg, [0x80, 0], 24, 32);
    FirstWords3(block, block[24..32]);
    SliceKept(msg, [0x80, 0], 32, 40);
    FirstWords4(block, block[32..40]);
    SliceKept(msg, [0x80, 0], 40, 48);
    FirstWords5(block, block[40..48]);
    SliceKept(msg, [0x80, 0], 48, 56);
    FirstWords6(block, block[48..56]);
    SliceKept(msg, [0x80, 0], 56, 62);
    FirstWords7(block, block[56..64]);
  }

  lemma SecondWords(block: seq<bv8>)
    requires |block| == 64 && block[56] == 0xf0 && block[57] == 1
    requires forall i | 0 <= i < 64 && i != 56 && i != 57 :: block[i] == 0
    ensures IsSecond(Words(block))
  {
    hide Words;
    WordIs(block, 14, 0xf0, 1, 0, 0);
    forall n | 0 <= n < 16 && n != 14
      ensures Words(block)[n] == 0
    {
      WordIs(block, n, 0, 0, 0, 0);
    }
  }

  lemma LettersPadding(msg: seq<bv8>)
    requires |msg| == 62
    ensures msg + Padding(62) == (msg + [0x80, 0]) + (Zeros(56) + [0xf0, 1, 0, 0, 0, 0, 0, 0])
  {
    hide EightBytes;
    Length496();
    assert Zeros(57) == [0] + Zeros(56);
  }

  lemma LettersOutput(q: State)
    requires q == State(0x98ab74d1, 0xf5d977d2, 0x2c1c61a5, 0x9f9d419f)
    ensures Output(q) == [
      0xd1, 0x74, 0xab, 0x98, 0xd2, 0x77, 0xd9, 0xf5,
      0xa5, 0x61, 0x1c, 0x2c, 0x9f, 0x41, 0x9d, 0x9f]
  {
    OutputIs(q, [0xd1, 0x74, 0xab, 0x98], [0xd2, 0x77, 0xd9, 0xf5],
             [0xa5, 0x61, 0x1c, 0x2c], [0x9f, 0x41, 0x9d, 0x9f]);
  }

  /** The digest of these 62 bytes is d174ab98d277d9f5a5611c2c9f419d9f. */
  lemma LettersMessage(msg: seq<bv8>)
    requires |msg| == 62
    requires msg[0..8] == [0x41, 0x42, 0x43, 0x44, 0x45, 0x46, 0x47, 0x48]
    requires msg[8..16] == [0x49, 0x4a, 0x4b, 0x4c, 0x4d, 0x4e, 0x4f, 0x50]
    requires msg[16..24] == [0x51, 0x52, 0x53, 0x54, 0x55, 0x56, 0x57, 0x58]
    requires msg[24..32] == [0x59, 0x5a, 0x61, 0x62, 0x63, 0x64, 0x65, 0x66]
    requires msg[32..40] == [0x67, 0x68, 0x69, 0x6a, 0x6b, 0x6c, 0x6d, 0x6e]
    requires msg[40..48] == [0x6f, 0x70, 0x71, 0x72, 0x73, 0x74, 0x75, 0x76]
    requires msg[48..56] == [0x77, 0x78, 0x79, 0x7a, 0x30, 0x31, 0x32, 0x33]
    requires msg[56..62] == [0x34, 0x35, 0x36, 0x37, 0x38, 0x39]
    ensures Digest(msg) == [
      0xd1, 0x74, 0xab, 0x98, 0xd2, 0x77, 0xd9, 0xf5,
      0xa5, 0x61, 0x1c, 0x2c, 0x9f, 0x41, 0x9d, 0x9f]
  {
    hide Blocks, Words, Transform, Padding, Output, IsFirst, IsSecond;
    var a, b: seq<bv8> := msg + [0x80, 0], Zeros(56) + [0xf0, 1, 0, 0, 0, 0, 0, 0];
    LettersPadding(msg);
    LettersFirst(msg);
    SecondWords(b);
    BlocksAppend(INITIAL, a, b);
    OneBlock(INITIAL, a);
    FirstTransform(Words(a), INITIAL);
    OneBlock(Blocks(INITIAL, a), b);
    SecondTransform(Words(b), Blocks(INITIAL, a));
    LettersOutput(State(0x98ab74d1, 0xf5d977d2, 0x2c1c61a5, 0x9f9d419f));
  }
}
