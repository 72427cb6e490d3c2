/** CRC32 of ngx_crc32.h and ngx_crc32.c: the tables of 16 and 256 entries against the polynomial. */
module Crc32 {

  /** The polynomial of section 5.5 of the PNG specification, bits reflected. */
  const POLY: bv32 := 0xedb8_8320

  const ONES: bv32 := 0xffff_ffff

  /** `ngx_crc32_table16`. */
  const TABLE16: seq<bv32> := [
    0x00000000, 0x1db71064, 0x3b6e20c8, 0x26d930ac, 0x76dc4190, 0x6b6b51f4, 0x4db26158, 0x5005713c,
    0xedb88320, 0xf00f9344, 0xd6d6a3e8, 0xcb61b38c, 0x9b64c2b0, 0x86d3d2d4, 0xa00ae278, 0xbdbdf21c]

  /** `ngx_crc32_table256`, sixteen entries a row. */
  const ROW0: seq<bv32> := [
    0x00000000, 0x77073096, 0xee0e612c, 0x990951ba, 0x076dc419, 0x706af48f, 0xe963a535, 0x9e6495a3,
    0x0edb8832, 0x79dcb8a4, 0xe0d5e91e, 0x97d2d988, 0x09b64c2b, 0x7eb17cbd, 0xe7b82d07, 0x90bf1d91]
  const ROW1: seq<bv32> := [
    0x1db71064, 0x6ab020f2, 0xf3b97148, 0x84be41de, 0x1adad47d, 0x6ddde4eb, 0xf4d4b551, 0x83d385c7,
    0x136c9856, 0x646ba8c0, 0xfd62f97a, 0x8a65c9ec, 0x14015c4f, 0x63066cd9, 0xfa0f3d63, 0x8d080df5]
  const ROW2: seq<bv32> := [
    0x3b6e20c8, 0x4c69105e, 0xd56041e4, 0xa2677172, 0x3c03e4d1, 0x4b04d447, 0xd20d85fd, 0xa50ab56b,
    0x35b5a8fa, 0x42b2986c, 0xdbbbc9d6, 0xacbcf940, 0x32d86ce3, 0x45df5c75, 0xdcd60dcf, 0xabd13d59]
  const ROW3: seq<bv32> := [
    0x26d930ac, 0x51de003a, 0xc8d75180, 0xbfd06116, 0x21b4f4b5, 0x56b3c423, 0xcfba9599, 0xb8bda50f,
    0x2802b89e, 0x5f058808, 0xc60cd9b2, 0xb10be924, 0x2f6f7c87, 0x58684c11, 0xc1611dab, 0xb6662d3d]
  const ROW4: seq<bv32> := [
    0x76dc4190, 0x01db7106, 0x98d220bc, 0xefd5102a, 0x71b18589, 0x06b6b51f, 0x9fbfe4a5, 0xe8b8d433,
    0x7807c9a2, 0x0f00f934, 0x9609a88e, 0xe10e9818, 0x7f6a0dbb, 0x086d3d2d, 0x91646c97, 0xe6635c01]
  const ROW5: seq<bv32> := [
    0x6b6b51f4, 0x1c6c6162, 0x856530d8, 0xf262004e, 0x6c0695ed, 0x1b01a57b, 0x8208f4c1, 0xf50fc457,
    0x65b0d9c6, 0x12b7e950, 0x8bbeb8ea, 0xfcb9887c, 0x62dd1ddf, 0x15da2d49, 0x8cd37cf3, 0xfbd44c65]
  const ROW6: seq<bv32> := [
    0x4db26158, 0x3ab551ce, 0xa3bc0074, 0xd4bb30e2, 0x4adfa541, 0x3dd895d7, 0xa4d1c46d, 0xd3d6f4fb,
    0x4369e96a, 0x346ed9fc, 0xad678846, 0xda60b8d0, 0x44042d73, 0x33031de5, 0xaa0a4c5f, 0xdd0d7cc9]
  const ROW7: seq<bv32> := [
    0x5005713c, 0x270241aa, 0xbe0b1010, 0xc90c2086, 0x5768b525, 0x206f85b3, 0xb966d409, 0xce61e49f,
    0x5edef90e, 0x29d9c998, 0xb0d09822, 0xc7d7a8b4, 0x59b33d17, 0x2eb40d81, 0xb7bd5c3b, 0xc0ba6cad]
  const ROW8: seq<bv32> := [
    0xedb88320, 0x9abfb3b6, 0x03b6e20c, 0x74b1d29a, 0xead54739, 0x9dd277af, 0x04db2615, 0x73dc1683,
    0xe3630b12, 0x94643b84, 0x0d6d6a3e, 0x7a6a5aa8, 0xe40ecf0b, 0x9309ff9d, 0x0a00ae27, 0x7d079eb1]
  const ROW9: seq<bv32> := [
    0xf00f9344, 0x8708a3d2, 0x1e01f268, 0x6906c2fe, 0xf762575d, 0x806567cb, 0x196c3671, 0x6e6b06e7,
    0xfed41b76, 0x89d32be0, 0x10da7a5a, 0x67dd4acc, 0xf9b9df6f, 0x8ebeeff9, 0x17b7be43, 0x60b08ed5]
  const ROWA: seq<bv32> := [
    0xd6d6a3e8, 0xa1d1937e, 0x38d8c2c4, 0x4fdff252, 0xd1bb67f1, 0xa6bc5767, 0x3fb506dd, 0x48b2364b,
    0xd80d2bda, 0xaf0a1b4c, 0x36034af6, 0x41047a60, 0xdf60efc3, 0xa867df55, 0x316e8eef, 0x4669be79]
  const ROWB: seq<bv32> := [
    0xcb61b38c, 0xbc66831a, 0x256fd2a0, 0x5268e236, 0xcc0c7795, 0xbb0b4703, 0x220216b9, 0x5505262f,
    0xc5ba3bbe, 0xb2bd0b28, 0x2bb45a92, 0x5cb36a04, 0xc2d7ffa7, 0xb5d0cf31, 0x2cd99e8b, 0x5bdeae1d]
  const ROWC: seq<bv32> := [
    0x9b64c2b0, 0xec63f226, 0x756aa39c, 0x026d930a, 0x9c0906a9, 0xeb0e363f, 0x72076785, 0x05005713,
    0x95bf4a82, 0xe2b87a14, 0x7bb12bae, 0x0cb61b38, 0x92d28e9b, 0xe5d5be0d, 0x7cdcefb7, 0x0bdbdf21]
  const ROWD: seq<bv32> := [
    0x86d3d2d4, 0xf1d4e242, 0x68ddb3f8, 0x1fda836e, 0x81be16cd, 0xf6b9265b, 0x6fb077e1, 0x18b74777,
    0x88085ae6, 0xff0f6a70, 0x66063bca, 0x11010b5c, 0x8f659eff, 0xf862ae69, 0x616bffd3, 0x166ccf45]
  const ROWE: seq<bv32> := [
    0xa00ae278, 0xd70dd2ee, 0x4e048354, 0x3903b3c2, 0xa7672661, 0xd06016f7, 0x4969474d, 0x3e6e77db,
    0xaed16a4a, 0xd9d65adc, 0x40df0b66, 0x37d83bf0, 0xa9bcae53, 0xdebb9ec5, 0x47b2cf7f, 0x30b5ffe9]
  const ROWF: seq<bv32> := [
    0xbdbdf21c, 0xcabac28a, 0x53b39330, 0x24b4a3a6, 0xbad03605, 0xcdd70693, 0x54de5729, 0x23d967bf,
    0xb3667a2e, 0xc4614ab8, 0x5d681b02, 0x2a6f2b94, 0xb40bbe37, 0xc30c8ea1, 0x5a05df1b, 0x2d02ef8d]

  function Row(h: nat): (r: seq<bv32>)
    requires h < 16
    ensures |r| == 16
  {
    if h == 0 then ROW0
    else if h == 1 then ROW1
    else if h == 2 then ROW2
    else if h == 3 then ROW3
    else if h == 4 then ROW4
    else if h == 5 then ROW5
    else if h == 6 then ROW6
    else if h == 7 then ROW7
    else if h == 8 then ROW8
    else if h == 9 then ROW9
    else if h == 10 then ROWA
    else if h == 11 then ROWB
    else if h == 12 then ROWC
    else if h == 13 then ROWD
    else if h == 14 then ROWE
    else ROWF
  }

  /** Entry `i` of `ngx_crc32_table256`. */
  function Table256(i: bv32): bv32
    requires i < 256
  {
    Row((i >> 4) as nat)[(i & 0xf) as nat]
  }

  // ----- Register arithmetic -----------------------------------------------------------------------------

  function Xor(a: bv32, b: bv32): bv32 {
    a ^ b
  }

  predicate Odd(a: bv32) {
    a & 1 == 1
  }

  function Half(a: bv32): bv32 {
    a >> 1
  }

  lemma XorAssoc(a: bv32, b: bv32, c: bv32)
    ensures Xor(Xor(a, b), c) == Xor(a, Xor(b, c))
  {
    calc {
      Xor(Xor(a, b), c);
      Xor(a ^ b, c);
      (a ^ b) ^ c;
      a ^ (b ^ c);
      Xor(a, b ^ c);
      Xor(a, Xor(b, c));
    }
  }

  lemma XorComm(a: bv32, b: bv32)
    ensures Xor(a, b) == Xor(b, a)
  {
  }

  lemma XorZero(a: bv32)
    ensures Xor(a, 0) == a && Xor(a, a) == 0
  {
  }

  /** Adding the same value twice, or past another one. */
  lemma XorTwice(a: bv32, b: bv32, c: bv32)
    ensures Xor(Xor(a, c), b) == Xor(Xor(a, b), c)
    ensures Xor(Xor(a, c), Xor(b, c)) == Xor(a, b)
  {
    hide Xor;
    XorAssoc(a, c, b);
    XorComm(c, b);
    XorAssoc(a, b, c);
    XorAssoc(Xor(a, c), b, c);
    XorAssoc(Xor(a, b), c, c);
    XorZero(c);
    XorZero(Xor(a, b));
  }

  lemma HalfXor(a: bv32, b: bv32)
    ensures Half(Xor(a, b)) == Xor(Half(a), Half(b)) && Odd(Xor(a, b)) == (Odd(a) != Odd(b))
  {
  }

  // ----- The definition: one bit at a time ---------------------------------------------------------------------

  /** The register shifted by one bit. */
  function Shift(c: bv32): bv32 {
    if Odd(c) then Xor(Half(c), POLY) else Half(c)
  }

  /** The register after one message bit. */
  function BitStep(c: bv32, bit: bool): bv32 {
    Shift(if bit then Xor(c, 1) else c)
  }

  /** Bit `k` of a byte, least significant first. */
  predicate MessageBit(b: bv8, k: nat)
    requires k < 8
  {
    match k
    case 0 => b & 0x01 != 0
    case 1 => b & 0x02 != 0
    case 2 => b & 0x04 != 0
    case 3 => b & 0x08 != 0
    case 4 => b & 0x10 != 0
    case 5 => b & 0x20 != 0
    case 6 => b & 0x40 != 0
    case _ => b & 0x80 != 0
  }

  /** The register after the first `n` bits of a byte. */
  function AfterBits(c: bv32, b: bv8, n: nat): bv32
    requires n <= 8
  {
    if n == 0 then c else BitStep(AfterBits(c, b, n - 1), MessageBit(b, n - 1))
  }

  /** The register after the bytes of a message. */
  function After(c: bv32, p: seq<bv8>): bv32 {
    if p == [] then c else AfterBits(After(c, p[..|p| - 1]), p[|p| - 1], 8)
  }

  /** The checksum: the register starts with all ones and is complemented in the end. */
  function Crc(p: seq<bv8>): bv32 {
    Xor(After(ONES, p), ONES)
  }

  // ----- Four and eight bits at a time -------------------------------------------------------------------------

  function Four(c: bv32): bv32 {
    Shift(Shift(Shift(Shift(c))))
  }

  function Eight(c: bv32): bv32 {
    Four(Four(c))
  }

  lemma ShiftXor(x: bv32, y: bv32)
    ensures Shift(Xor(x, y)) == Xor(Shift(x), Shift(y))
  {
    hide Xor, Half, Odd;
    HalfXor(x, y);
    XorTwice(Half(x), Half(y), POLY);
    XorAssoc(Half(x), Half(y), POLY);
  }

  lemma FourXor(x: bv32, y: bv32)
    ensures Four(Xor(x, y)) == Xor(Four(x), Four(y))
  {
    hide Shift, Xor;
    ShiftXor(x, y);
    ShiftXor(Shift(x), Shift(y));
    ShiftXor(Shift(Shift(x)), Shift(Shift(y)));
    ShiftXor(Shift(Shift(Shift(x))), Shift(Shift(Shift(y))));
  }

  lemma EightXor(x: bv32, y: bv32)
    ensures Eight(Xor(x, y)) == Xor(Eight(x), Eight(y))
  {
    hide Four, Xor;
    FourXor(x, y);
    FourXor(Four(x), Four(y));
  }

  /** Bits above the lowest four only move down. */
  lemma FourHigh(h: bv32)
    requires h & 0xf == 0
    ensures Four(h) == h >> 4
  {
    assert Shift(h) == h >> 1;
    assert Shift(h >> 1) == h >> 2;
    assert Shift(h >> 2) == h >> 3;
    assert Shift(h >> 3) == h >> 4;
  }

  function Low4(c: bv32): bv32 {
    c & 0xf
  }

  function Low8(c: bv32): bv32 {
    c & 0xff
  }

  function Shr4(c: bv32): bv32 {
    c >> 4
  }

  function Shr8(c: bv32): bv32 {
    c >> 8
  }

  lemma Parts4(c: bv32)
    ensures (c & 0xf) ^ (c & 0xffff_fff0) == c && (c & 0xffff_fff0) & 0xf == 0 && (c & 0xffff_fff0) >> 4 == c >> 4
  {
  }

  lemma Parts8(c: bv32)
    ensures (c & 0xff) ^ (c & 0xffff_ff00) == c && (c & 0xffff_ff00) & 0xf == 0
    ensures ((c & 0xffff_ff00) >> 4) & 0xf == 0 && ((c & 0xffff_ff00) >> 4) >> 4 == c >> 8
  {
  }

  lemma HighBits(c: bv32)
    ensures c == Xor(Low4(c), c & 0xffff_fff0) && Four(c & 0xffff_fff0) == Shr4(c)
  {
    hide Four;
    Parts4(c);
    FourHigh(c & 0xffff_fff0);
    assert Low4(c) == c & 0xf;
  }

  lemma EightHigh(h: bv32)
    requires h & 0xf == 0 && (h >> 4) & 0xf == 0
    ensures Eight(h) == (h >> 4) >> 4
  {
    hide Four;
    FourHigh(h);
    FourHigh(h >> 4);
  }

  lemma HighByte(c: bv32)
    ensures c == Xor(Low8(c), c & 0xffff_ff00) && Eight(c & 0xffff_ff00) == Shr8(c)
  {
    hide Eight;
    Parts8(c);
    EightHigh(c & 0xffff_ff00);
    assert Low8(c) == c & 0xff;
  }

  /** Four shifts depend on the lowest four bits and move the others. */
  lemma FourSplits(c: bv32)
    ensures Four(c) == Xor(Four(Low4(c)), Shr4(c))
  {
    hide Four, Xor, Low4, Shr4;
    HighBits(c);
    FourXor(Low4(c), c & 0xffff_fff0);
  }

  lemma EightSplits(c: bv32)
    ensures Eight(c) == Xor(Eight(Low8(c)), Shr8(c))
  {
    hide Eight, Xor, Low8, Shr8;
    HighByte(c);
    EightXor(Low8(c), c & 0xffff_ff00);
  }

  /** Adding a value and shifting is the step for its lowest bit, the other bits still to come. */
  lemma OneBit(c: bv32, v: bv32)
    ensures Shift(Xor(c, v)) == Xor(BitStep(c, Odd(v)), Half(v))
  {
    hide Xor, Shift, Odd;
    var low := if Odd(v) then 1 else 0;
    LowBit(v);
    XorAssoc(c, low, v & 0xffff_fffe);
    ShiftXor(Xor(c, low), v & 0xffff_fffe);
    XorZero(c);
  }

  lemma LowBit(v: bv32)
    ensures v == Xor(if Odd(v) then 1 else 0, v & 0xffff_fffe)
    ensures Shift(v & 0xffff_fffe) == Half(v)
  {
    LowParts(v);
    ShiftEven(v & 0xffff_fffe);
  }

  lemma LowParts(v: bv32)
    ensures v & 1 == 1 ==> 1 ^ (v & 0xffff_fffe) == v
    ensures v & 1 == 0 ==> 0 ^ (v & 0xffff_fffe) == v
    ensures (v & 0xffff_fffe) & 1 == 0 && (v & 0xffff_fffe) >> 1 == v >> 1 && (v & 1 == 0 || v & 1 == 1)
  {
  }

  lemma ShiftEven(h: bv32)
    requires h & 1 == 0
    ensures Shift(h) == h >> 1
  {
  }

  lemma BitsAgree(b: bv8)
    ensures var v := b as bv32;
      && Odd(v) == MessageBit(b, 0) && Odd(v >> 1) == MessageBit(b, 1)
      && Odd(v >> 2) == MessageBit(b, 2) && Odd(v >> 3) == MessageBit(b, 3)
      && Odd(v >> 4) == MessageBit(b, 4) && Odd(v >> 5) == MessageBit(b, 5)
      && Odd(v >> 6) == MessageBit(b, 6) && Odd(v >> 7) == MessageBit(b, 7)
  {
  }

  lemma HalvesAdd(v: bv32)
    ensures Half(v) == v >> 1 && Half(v >> 1) == v >> 2 && Half(v >> 2) == v >> 3 && Half(v >> 3) == v >> 4
    ensures Half(v >> 4) == v >> 5 && Half(v >> 5) == v >> 6 && Half(v >> 6) == v >> 7 && Half(v >> 7) == v >> 8
    ensures v < 256 ==> v >> 8 == 0
  {
  }

  /** Four bits of a value that was added to the register. */
  lemma HalfAByte(c: bv32, v: bv32, b0: bool, b1: bool, b2: bool, b3: bool, v1: bv32, v2: bv32, v3: bv32, v4: bv32)
    requires v1 == Half(v) && v2 == Half(v1) && v3 == Half(v2) && v4 == Half(v3)
    requires b0 == Odd(v) && b1 == Odd(v1) && b2 == Odd(v2) && b3 == Odd(v3)
    ensures Four(Xor(c, v)) == Xor(BitStep(BitStep(BitStep(BitStep(c, b0), b1), b2), b3), v4)
  {
    hide Xor, Shift, BitStep, Half, Odd;
    OneBit(c, v);
    OneBit(BitStep(c, b0), v1);
    OneBit(BitStep(BitStep(c, b0), b1), v2);
    OneBit(BitStep(BitStep(BitStep(c, b0), b1), b2), v3);
  }

  lemma UnrollBits(c: bv32, b: bv8)
    ensures AfterBits(c, b, 4)
         == BitStep(BitStep(BitStep(BitStep(c, MessageBit(b, 0)), MessageBit(b, 1)), MessageBit(b, 2)),
                    MessageBit(b, 3))
    ensures AfterBits(c, b, 8)
         == BitStep(BitStep(BitStep(BitStep(AfterBits(c, b, 4), MessageBit(b, 4)), MessageBit(b, 5)),
                            MessageBit(b, 6)), MessageBit(b, 7))
  {
    hide BitStep, MessageBit;
    assert AfterBits(c, b, 0) == c;
    assert AfterBits(c, b, 1) == BitStep(c, MessageBit(b, 0));
    assert AfterBits(c, b, 2) == BitStep(BitStep(c, MessageBit(b, 0)), MessageBit(b, 1));
    assert AfterBits(c, b, 6) == BitStep(BitStep(AfterBits(c, b, 4), MessageBit(b, 4)), MessageBit(b, 5));
  }

  function Wide(b: bv8): bv32 {
    b as bv32
  }

  /** The first four bits of a byte. */
  lemma FirstHalf(c: bv32, b: bv8, v: bv32, v1: bv32, v2: bv32, v3: bv32, v4: bv32)
    requires v1 == Half(v) && v2 == Half(v1) && v3 == Half(v2) && v4 == Half(v3)
    requires Odd(v) == MessageBit(b, 0) && Odd(v1) == MessageBit(b, 1)
    requires Odd(v2) == MessageBit(b, 2) && Odd(v3) == MessageBit(b, 3)
    ensures Four(Xor(c, v)) == Xor(AfterBits(c, b, 4), v4)
  {
    hide Four, BitStep, MessageBit, Half, Xor, Odd, AfterBits;
    UnrollBits(c, b);
    HalfAByte(c, v, MessageBit(b, 0), MessageBit(b, 1), MessageBit(b, 2), MessageBit(b, 3), v1, v2, v3, v4);
  }

  /** The other four. */
  lemma SecondHalf(c: bv32, b: bv8, v: bv32, v1: bv32, v2: bv32, v3: bv32)
    requires v1 == Half(v) && v2 == Half(v1) && v3 == Half(v2) && 0 == Half(v3)
    requires Odd(v) == MessageBit(b, 4) && Odd(v1) == MessageBit(b, 5)
    requires Odd(v2) == MessageBit(b, 6) && Odd(v3) == MessageBit(b, 7)
    ensures Four(Xor(AfterBits(c, b, 4), v)) == AfterBits(c, b, 8)
  {
    hide Four, BitStep, MessageBit, Half, Xor, Odd, AfterBits;
    UnrollBits(c, b);
    HalfAByte(AfterBits(c, b, 4), v, MessageBit(b, 4), MessageBit(b, 5), MessageBit(b, 6), MessageBit(b, 7),
              v1, v2, v3, 0);
    XorZero(AfterBits(c, b, 8));
  }

  /** A whole byte may be added to the register before its eight shifts. */
  lemma ByteAtOnce(c: bv32, b: bv8)
    ensures AfterBits(c, b, 8) == Eight(Xor(c, Wide(b)))
  {
    hide Four, MessageBit, Half, Xor, Odd, AfterBits;
    var v := b as bv32;
    BitsAgree(b);
    HalvesAdd(v);
    FirstHalf(c, b, v, v >> 1, v >> 2, v >> 3, v >> 4);
    SecondHalf(c, b, v >> 4, v >> 5, v >> 6, v >> 7);
  }

  // ----- The tables --------------------------------------------------------------------------------------------

  /** The small table holds four shifts of each nibble. */
  lemma Table16Is(i: nat)
    requires i < 16
    ensures TABLE16[i] == Four(i as bv32)
  {
    hide Four;
    if i < 8 {
      Table16Low(i);
    } else {
      Table16High(i);
    }
  }

  lemma Table16Low(i: nat)
    requires i < 8
    ensures TABLE16[i] == Four(i as bv32)
  {
    hide Four;
    NibbleShifts();
    match i {
      case 0 => case 1 => case 2 => case 3 => case 4 => case 5 => case 6 => case _ =>
    }
  }

  lemma Table16High(i: nat)
    requires 8 <= i < 16
    ensures TABLE16[i] == Four(i as bv32)
  {
    hide Four;
    NibbleShifts();
    match i {
      case 8 => case 9 => case 10 => case 11 => case 12 => case 13 => case 14 => case _ =>
    }
  }

  lemma NibbleShifts()
    ensures Four(0) == 0x00000000 && Four(1) == 0x1db71064 && Four(2) == 0x3b6e20c8 && Four(3) == 0x26d930ac
    ensures Four(4) == 0x76dc4190 && Four(5) == 0x6b6b51f4 && Four(6) == 0x4db26158 && Four(7) == 0x5005713c
    ensures Four(8) == 0xedb88320 && Four(9) == 0xf00f9344 && Four(10) == 0xd6d6a3e8 && Four(11) == 0xcb61b38c
    ensures Four(12) == 0x9b64c2b0 && Four(13) == 0x86d3d2d4 && Four(14) == 0xa00ae278 && Four(15) == 0xbdbdf21c
  {
  }

  /** The first row of the large table holds eight shifts. */
  lemma FirstRow(i: nat)
    requires i < 16
    ensures ROW0[i] == Eight(i as bv32)
  {
    hide Eight;
    if i < 8 {
      FirstRowLow(i);
    } else {
      FirstRowHigh(i);
    }
  }

  lemma FirstRowLow(i: nat)
    requires i < 8
    ensures ROW0[i] == Eight(i as bv32)
  {
    hide Eight;
    LowBytes0();
    LowBytes1();
    match i {
      case 0 => case 1 => case 2 => case 3 => case 4 => case 5 => case 6 => case _ =>
    }
  }

  lemma FirstRowHigh(i: nat)
    requires 8 <= i < 16
    ensures ROW0[i] == Eight(i as bv32)
  {
    hide Eight;
    LowBytes2();
    LowBytes3();
    match i {
      case 8 => case 9 => case 10 => case 11 => case 12 => case 13 => case 14 => case _ =>
    }
  }

  lemma LowBytes0()
    ensures Eight(0) == 0x00000000 && Eight(1) == 0x77073096 && Eight(2) == 0xee0e612c && Eight(3) == 0x990951ba
  {
  }

  lemma LowBytes1()
    ensures Eight(4) == 0x076dc419 && Eight(5) == 0x706af48f && Eight(6) == 0xe963a535 && Eight(7) == 0x9e6495a3
  {
  }

  lemma LowBytes2()
    ensures Eight(8) == 0x0edb8832 && Eight(9) == 0x79dcb8a4 && Eight(10) == 0xe0d5e91e && Eight(11) == 0x97d2d988
  {
  }

  lemma LowBytes3()
    ensures Eight(12) == 0x09b64c2b && Eight(13) == 0x7eb17cbd && Eight(14) == 0xe7b82d07 && Eight(15) == 0x90bf1d91
  {
  }

  /** So do the first entries of the rows. */
  lemma FirstColumn(h: nat)
    requires h < 16
    ensures Row(h)[0] == Eight((h as bv32) << 4)
  {
    hide Eight;
    HighBytes();
    match h {
      case 0 => case 1 => case 2 => case 3 => case 4 => case 5 => case 6 => case 7 =>
      case 8 => case 9 => case 10 => case 11 => case 12 => case 13 => case 14 => case _ =>
    }
  }

  lemma HighBytes()
    ensures Eight(0) == 0x00000000 && Eight(16) == 0x1db71064 && Eight(32) == 0x3b6e20c8 && Eight(48) == 0x26d930ac
    ensures Eight(64) == 0x76dc4190 && Eight(80) == 0x6b6b51f4 && Eight(96) == 0x4db26158 && Eight(112) == 0x5005713c
    ensures Eight(128) == 0xedb88320 && Eight(144) == 0xf00f9344 && Eight(160) == 0xd6d6a3e8 && Eight(176) == 0xcb61b38c
    ensures Eight(192) == 0x9b64c2b0 && Eight(208) == 0x86d3d2d4 && Eight(224) == 0xa00ae278 && Eight(240) == 0xbdbdf21c
  {
    hide Four;
    NibbleShifts();
    FourHigh(0);
    FourHigh(16);
    FourHigh(32);
    FourHigh(48);
    FourHigh(64);
    FourHigh(80);
    FourHigh(96);
    FourHigh(112);
    FourHigh(128);
    FourHigh(144);
    FourHigh(160);
    FourHigh(176);
    FourHigh(192);
    FourHigh(208);
    FourHigh(224);
    FourHigh(240);
  }

  /** Every entry of the row is the sum of its first one and the entry of the column in the first row. */
  ghost predicate IsSum(row: seq<bv32>, first: seq<bv32>) {
    && |row| == 16 == |first|
    && row[0] == Xor(row[0], first[0]) && row[1] == Xor(row[0], first[1]) && row[2] == Xor(row[0], first[2])
    && row[3] == Xor(row[0], first[3]) && row[4] == Xor(row[0], first[4]) && row[5] == Xor(row[0], first[5])
    && row[6] == Xor(row[0], first[6]) && row[7] == Xor(row[0], first[7]) && row[8] == Xor(row[0], first[8])
    && row[9] == Xor(row[0], first[9]) && row[10] == Xor(row[0], first[10]) && row[11] == Xor(row[0], first[11])
    && row[12] == Xor(row[0], first[12]) && row[13] == Xor(row[0], first[13])
    && row[14] == Xor(row[0], first[14]) && row[15] == Xor(row[0], first[15])
  }

  lemma Sums1()
    ensures IsSum(ROW1, ROW0) && IsSum(ROW2, ROW0)
  {
  }

  lemma Sums2()
    ensures IsSum(ROW3, ROW0) && IsSum(ROW4, ROW0)
  {
  }

  lemma Sums3()
    ensures IsSum(ROW5, ROW0) && IsSum(ROW6, ROW0)
  {
  }

  lemma Sums4()
    ensures IsSum(ROW7, ROW0) && IsSum(ROW8, ROW0)
  {
  }

  lemma Sums5()
    ensures IsSum(ROW9, ROW0) && IsSum(ROWA, ROW0)
  {
  }

  lemma Sums6()
    ensures IsSum(ROWB, ROW0) && IsSum(ROWC, ROW0)
  {
  }

  lemma Sums7()
    ensures IsSum(ROWD, ROW0) && IsSum(ROWE, ROW0)
  {
  }

  lemma Sums8()
    ensures IsSum(ROWF, ROW0)
  {
  }

  lemma RowIsSum(h: nat)
    requires 0 < h < 16
    ensures IsSum(Row(h), ROW0)
  {
    hide Xor, IsSum, ROW0, ROW1, ROW2, ROW3, ROW4, ROW5, ROW6, ROW7;
    hide ROW8, ROW9, ROWA, ROWB, ROWC, ROWD, ROWE, ROWF;
    Sums1();
    Sums2();
    Sums3();
    Sums4();
    Sums5();
    Sums6();
    Sums7();
    Sums8();
  }

  lemma SameSixteen<T>(s: seq<T>, t: seq<T>, l: nat)
    requires |s| == 16 == |t| && l < 16
    requires s[0] == t[0] && s[1] == t[1] && s[2] == t[2] && s[3] == t[3]
    requires s[4] == t[4] && s[5] == t[5] && s[6] == t[6] && s[7] == t[7]
    requires s[8] == t[8] && s[9] == t[9] && s[10] == t[10] && s[11] == t[11]
    requires s[12] == t[12] && s[13] == t[13] && s[14] == t[14] && s[15] == t[15]
    ensures s[l] == t[l]
  {
  }

  lemma SumAt(row: seq<bv32>, first: seq<bv32>, l: nat)
    requires l < 16 && IsSum(row, first)
    ensures row[l] == Xor(row[0], first[l])
  {
    hide Xor;
    SameSixteen(row, seq(16, i requires 0 <= i < 16 => Xor(row[0], first[i])), l);
  }

  lemma RowsAreSums(h: nat, l: nat)
    requires h < 16 && l < 16
    ensures Row(h)[l] == Xor(Row(h)[0], ROW0[l])
  {
    if h == 0 {
      XorComm(0, ROW0[l]);
      XorZero(ROW0[l]);
    } else {
      RowIsSum(h);
      SumAt(Row(h), ROW0, l);
    }
  }

  lemma Halves(i: bv32)
    requires i < 256
    ensures i >> 4 < 16 && i & 0xf < 16 && i == Xor((i >> 4) << 4, i & 0xf)
  {
  }

  lemma Index(x: bv32) returns (k: nat)
    requires x < 16
    ensures k < 16 && k == x as nat && k as bv32 == x
  {
    k := x as nat;
  }

  /** The row and the column of an entry, and what they contribute. */
  lemma Nibbles(i: bv32) returns (h: nat, l: nat)
    requires i < 256
    ensures h < 16 && l < 16 && h == (i >> 4) as nat && l == (i & 0xf) as nat
    ensures i == Xor((h as bv32) << 4, l as bv32)
  {
    hide Xor;
    Halves(i);
    h := Index(i >> 4);
    l := Index(i & 0xf);
  }

  lemma EntryIs(h: nat, l: nat, x: bv32, y: bv32)
    requires h < 16 && l < 16 && x == (h as bv32) << 4 && y == l as bv32
    ensures Row(h)[l] == Eight(Xor(x, y))
  {
    hide Eight, Xor, Row;
    FirstRow(l);
    FirstColumn(h);
    RowsAreSums(h, l);
    EightXor(x, y);
  }

  /** The large table holds eight shifts of each byte. */
  lemma Table256Is(i: bv32)
    requires i < 256
    ensures Table256(i) == Eight(i)
  {
    hide Eight, Xor, Row;
    var h, l := Nibbles(i);
    EntryIs(h, l, (h as bv32) << 4, l as bv32);
  }

  // ----- A byte by table ---------------------------------------------------------------------------------------

  lemma LowOfByte(c: bv32, b: bv32)
    requires b < 256
    ensures (c ^ b) >> 8 == c >> 8 && (c ^ b) & 0xff < 256
  {
  }

  lemma LowOfNibble(c: bv32, n: bv32)
    requires n < 16
    ensures (c ^ n) >> 4 == c >> 4 && (c ^ n) & 0xf < 16
  {
  }

  /** The step of `ngx_crc32_long` and `ngx_crc32_update`. */
  function LongStep(c: bv32, b: bv8): bv32
  {
    LowOfByte(c, Wide(b));
    Xor(Table256(Low8(Xor(c, Wide(b)))), Shr8(c))
  }

  lemma LongStepIs(c: bv32, b: bv8)
    ensures LongStep(c, b) == AfterBits(c, b, 8)
  {
    hide Eight, Table256, AfterBits;
    var x := Xor(c, Wide(b));
    LowOfByte(c, Wide(b));
    EightSplits(x);
    Table256Is(Low8(x));
    ByteAtOnce(c, b);
  }

  /** Half a step of `ngx_crc32_short`. */
  function NibbleStep(c: bv32, n: bv32): bv32
    requires n < 16
  {
    LowOfNibble(c, n);
    Xor(TABLE16[Low4(Xor(c, n)) as nat], Shr4(c))
  }

  lemma NibbleStepIs(c: bv32, n: bv32)
    requires n < 16
    ensures NibbleStep(c, n) == Four(Xor(c, n))
  {
    hide Four;
    var x := Xor(c, n);
    LowOfNibble(c, n);
    FourSplits(x);
    SmallEntry(Low4(x));
  }

  lemma SmallEntry(x: bv32)
    requires x < 16
    ensures TABLE16[x as nat] == Four(x)
  {
    hide Four;
    var k := Index(x);
    Table16Is(k);
  }

  function ShortStep(c: bv32, b: bv8): bv32 {
    NibbleParts(b);
    NibbleStep(NibbleStep(c, (b & 0xf) as bv32), (b >> 4) as bv32)
  }

  lemma NibbleParts(b: bv8)
    ensures (b & 0xf) as bv32 < 16 && (b >> 4) as bv32 < 16
    ensures var lo, hi := (b & 0xf) as bv32, Wide(b) & 0xf0;
      Wide(b) == lo ^ hi && hi & 0xf == 0 && hi >> 4 == (b >> 4) as bv32
  {
  }

  lemma ShortStepIs(c: bv32, b: bv8)
    ensures ShortStep(c, b) == AfterBits(c, b, 8)
  {
    hide Four, AfterBits, NibbleStep, Xor;
    var lo, n := (b & 0xf) as bv32, (b >> 4) as bv32;
    NibbleParts(b);
    var hi := HighNibble(b);
    XorAssoc(c, lo, hi);
    FourXor(Xor(c, lo), hi);
    NibbleStepIs(c, lo);
    NibbleStepIs(NibbleStep(c, lo), n);
    ByteAtOnce(c, b);
  }

  lemma HighNibble(b: bv8) returns (hi: bv32)
    ensures Wide(b) == Xor((b & 0xf) as bv32, hi) && Four(hi) == (b >> 4) as bv32
  {
    hide Four;
    NibbleParts(b);
    hi := Wide(b) & 0xf0;
    FourHigh(hi);
  }

  // ----- Whole messages ----------------------------------------------------------------------------------------

  lemma AfterStep(c: bv32, p: seq<bv8>, i: nat)
    requires i < |p|
    ensures After(c, p[..i + 1]) == AfterBits(After(c, p[..i]), p[i], 8)
  {
    hide AfterBits;
    assert p[..i + 1][..i] == p[..i];
  }

  /** `ngx_crc32_short` computes the checksum. */
  method Short(p: seq<bv8>) returns (crc: bv32)
    ensures crc == Crc(p)
  {
    hide ShortStep, After;
    crc := ONES;
    NothingYet(ONES);
    assert p[..0] == [];
    for i := 0 to |p|
      invariant crc == After(ONES, p[..i])
    {
      crc := ShortStep(crc, p[i]);
      ShortStepIs(After(ONES, p[..i]), p[i]);
      AfterStep(ONES, p, i);
    }
    assert p[..|p|] == p;
    crc := Xor(crc, ONES);
  }

  lemma NothingYet(c: bv32)
    ensures After(c, []) == c
  {
  }

  /** `ngx_crc32_update`: the register goes on from where it stood. */
  method Update(crc: bv32, p: seq<bv8>) returns (c: bv32)
    ensures c == After(crc, p)
  {
    hide LongStep, After;
    c := crc;
    NothingYet(crc);
    assert p[..0] == [];
    for i := 0 to |p|
      invariant c == After(crc, p[..i])
    {
      c := LongStep(c, p[i]);
      LongStepIs(After(crc, p[..i]), p[i]);
      AfterStep(crc, p, i);
    }
    assert p[..|p|] == p;
  }

  /** `ngx_crc32_long` computes the checksum. */
  method Long(p: seq<bv8>) returns (crc: bv32)
    ensures crc == Crc(p)
  {
    hide LongStep, After;
    crc := Update(ONES, p);
    crc := Xor(crc, ONES);
  }

  lemma {:induction false} AfterAppend(c: bv32, a: seq<bv8>, b: seq<bv8>)
    ensures After(c, a + b) == After(After(c, a), b)
    decreases |b|
  {
    hide AfterBits;
    if b == [] {
      assert a + b == a;
    } else {
      assert (a + b)[..|a + b| - 1] == a + b[..|b| - 1];
      AfterAppend(c, a, b[..|b| - 1]);
    }
  }

  function Concat(chunks: seq<seq<bv8>>): seq<bv8> {
    if chunks == [] then [] else Concat(chunks[..|chunks| - 1]) + chunks[|chunks| - 1]
  }

  /** `ngx_crc32_init`, an update for each chunk and `ngx_crc32_final` give the checksum of all the bytes,
      however they are split. */
  method Chunked(chunks: seq<seq<bv8>>) returns (crc: bv32)
    ensures crc == Crc(Concat(chunks))
  {
    hide After;
    crc := ONES;
    NothingYet(ONES);
    assert chunks[..0] == [];
    for i := 0 to |chunks|
      invariant crc == After(ONES, Concat(chunks[..i]))
    {
      crc := Update(crc, chunks[i]);
      AfterAppend(ONES, Concat(chunks[..i]), chunks[i]);
      assert chunks[..i + 1][..i] == chunks[..i];
    }
    assert chunks[..|chunks|] == chunks;
    crc := Xor(crc, ONES);
  }

  // ----- The check value -----------------------------------------------------------------------------------------

  lemma Digits1()
    ensures AfterBits(0xffffffff, 0x31, 8) == 0x7c231048
    ensures AfterBits(0x7c231048, 0x32, 8) == 0xb0acbb32
    ensures AfterBits(0xb0acbb32, 0x33, 8) == 0x77b79c2d
  {
    hide AfterBits;
    ByteAtOnce(0xffffffff, 0x31);
    ByteAtOnce(0x7c231048, 0x32);
    ByteAtOnce(0xb0acbb32, 0x33);
  }

  lemma Digits4()
    ensures AfterBits(0x77b79c2d, 0x34, 8) == 0x641c1f5c
    ensures AfterBits(0x641c1f5c, 0x35, 8) == 0x340ac5e3
    ensures AfterBits(0x340ac5e3, 0x36, 8) == 0xf68d2c9e
  {
    hide AfterBits;
    ByteAtOnce(0x77b79c2d, 0x34);
    ByteAtOnce(0x641c1f5c, 0x35);
    ByteAtOnce(0x340ac5e3, 0x36);
  }

  lemma Digits7()
    ensures AfterBits(0xf68d2c9e, 0x37, 8) == 0xaffc9660
    ensures AfterBits(0xaffc9660, 0x38, 8) == 0x651f2550
    ensures AfterBits(0x651f2550, 0x39, 8) == 0x340bc6d9
  {
    hide AfterBits;
    ByteAtOnce(0xf68d2c9e, 0x37);
    ByteAtOnce(0xaffc9660, 0x38);
    ByteAtOnce(0x651f2550, 0x39);
  }

  /** The checksum of the digits "123456789". */
  lemma CheckValue(p: seq<bv8>)
    requires p == [0x31, 0x32, 0x33, 0x34, 0x35, 0x36, 0x37, 0x38, 0x39]
    ensures Crc(p) == 0xcbf4_3926
  {
    hide AfterBits, After;
    NothingYet(0xffff_ffff);
    assert p[..0] == [] && p[..9] == p;
    Digits1();
    Digits4();
    Digits7();
    AfterStep(0xffff_ffff, p, 0);
    AfterStep(0xffff_ffff, p, 1);
    AfterStep(0xffff_ffff, p, 2);
    AfterStep(0xffff_ffff, p, 3);
    AfterStep(0xffff_ffff, p, 4);
    AfterStep(0xffff_ffff, p, 5);
    AfterStep(0xffff_ffff, p, 6);
    AfterStep(0xffff_ffff, p, 7);
    AfterStep(0xffff_ffff, p, 8);
  }
}
