/** Network prefixes: `ngx_ptocidr` and `ngx_cidr_match` of ngx_inet.c. Addresses are held as their bytes in
    network order; the 32-bit IPv4 operations act on each byte alike. */
module Cidr {
  import opened Bytes
  import opened Inet
  import opened Inet6

  const SLASH: Byte := 47

  /** NGX_MAX_INT_T_VALUE of a 64-bit build. */
  const MAX_INT: int := 0x7fff_ffff_ffff_ffff

  datatype Family = AfInet | AfInet6 | AfUnix

  /** `ngx_cidr_t`; the bytes are unused for AF_UNIX. */
  datatype Cidr = Cidr(family: Family, addr: seq<bv8>, mask: seq<bv8>)

  datatype Sockaddr = SockInet(a: seq<bv8>) | SockInet6(p: seq<bv8>) | SockUnix

  // ----- Bits ---------------------------------------------------------------------------------------------

  /** Bit `j` of a byte, the highest first. */
  predicate Bit(b: bv8, j: nat)
    requires j < 8
  {
    match j
    case 0 => b & 0x80 != 0
    case 1 => b & 0x40 != 0
    case 2 => b & 0x20 != 0
    case 3 => b & 0x10 != 0
    case 4 => b & 0x08 != 0
    case 5 => b & 0x04 != 0
    case 6 => b & 0x02 != 0
    case _ => b & 0x01 != 0
  }

  /** Bit `j` of an address. */
  predicate BitAt(p: seq<bv8>, j: nat)
    requires j < 8 * |p|
  {
    Bit(p[j / 8], j % 8)
  }

  function And(a: bv8, b: bv8): bv8 {
    a & b
  }

  /** The mask byte `(u_char) (0xffu << (8 - s))`. */
  function TopMask(s: nat): bv8
    requires s <= 8
  {
    (((0xff as bv32) << (8 - s)) & 0xff) as bv8
  }

  /** How many of the first `k` bits lie in byte `i`. */
  function Part(k: nat, i: nat): nat {
    if k <= 8 * i then 0 else if k >= 8 * i + 8 then 8 else k - 8 * i
  }

  lemma TopMasks()
    ensures TopMask(0) == 0 && TopMask(1) == 0x80 && TopMask(2) == 0xc0 && TopMask(3) == 0xe0
    ensures TopMask(4) == 0xf0 && TopMask(5) == 0xf8 && TopMask(6) == 0xfc && TopMask(7) == 0xfe
    ensures TopMask(8) == 0xff
  {
  }

  /** The bits of a masked byte. */
  lemma MaskedBit(b: bv8, s: nat, j: nat)
    requires s <= 8 && j < 8
    ensures Bit(And(b, TopMask(s)), j) == (j < s && Bit(b, j))
  {
    hide TopMask;
    TopMasks();
    match s {
      case 0 => case 1 => case 2 => case 3 => case 4 => case 5 => case 6 => case 7 => case _ =>
    }
  }

  /** Bytes with the same bits are equal. */
  lemma SameBits(a: bv8, b: bv8)
    requires forall j: nat | j < 8 :: Bit(a, j) == Bit(b, j)
    ensures a == b
  {
    assert Bit(a, 0) == Bit(b, 0) && Bit(a, 1) == Bit(b, 1) && Bit(a, 2) == Bit(b, 2) && Bit(a, 3) == Bit(b, 3);
    assert Bit(a, 4) == Bit(b, 4) && Bit(a, 5) == Bit(b, 5) && Bit(a, 6) == Bit(b, 6) && Bit(a, 7) == Bit(b, 7);
  }

  /** Two masked bytes are equal exactly when the bits under the mask agree. */
  lemma MaskedEqual(x: bv8, a: bv8, s: nat)
    requires s <= 8
    ensures And(x, TopMask(s)) == And(a, TopMask(s)) <==> forall j: nat | j < s :: Bit(x, j) == Bit(a, j)
  {
    hide Bit, TopMask, And;
    var u, v := And(x, TopMask(s)), And(a, TopMask(s));
    if forall j: nat | j < s :: Bit(x, j) == Bit(a, j) {
      forall j: nat | j < 8
        ensures Bit(u, j) == Bit(v, j)
      {
        MaskedBit(x, s, j);
        MaskedBit(a, s, j);
      }
      SameBits(u, v);
    }
    if u == v {
      forall j: nat | j < s
        ensures Bit(x, j) == Bit(a, j)
      {
        MaskedBit(x, s, j);
        MaskedBit(a, s, j);
      }
    }
  }

  // ----- Prefixes of addresses ------------------------------------------------------------------------------

  ghost predicate IsMask(mask: seq<bv8>, k: nat) {
    forall i | 0 <= i < |mask| :: mask[i] == TopMask(Part(k, i))
  }

  /** The first `k` bits agree. */
  ghost predicate SamePrefix(x: seq<bv8>, a: seq<bv8>, k: nat) {
    |x| == |a| && forall j: nat | j < k && j < 8 * |x| :: BitAt(x, j) == BitAt(a, j)
  }

  /** `addr` keeps the first `k` bits of `bytes` and has all host bits clear. */
  ghost predicate IsNetwork(addr: seq<bv8>, bytes: seq<bv8>, k: nat) {
    |addr| == |bytes| && forall j: nat | j < 8 * |addr| :: BitAt(addr, j) == (j < k && BitAt(bytes, j))
  }

  ghost predicate Masked(addr: seq<bv8>, bytes: seq<bv8>, mask: seq<bv8>) {
    |addr| == |bytes| == |mask| && forall i | 0 <= i < |addr| :: addr[i] == And(bytes[i], mask[i])
  }

  lemma MaskedIsNetwork(addr: seq<bv8>, bytes: seq<bv8>, mask: seq<bv8>, k: nat)
    requires Masked(addr, bytes, mask) && IsMask(mask, k)
    ensures IsNetwork(addr, bytes, k)
  {
    hide Bit, TopMask, And;
    forall j: nat | j < 8 * |addr|
      ensures BitAt(addr, j) == (j < k && BitAt(bytes, j))
    {
      MaskedBit(bytes[j / 8], Part(k, j / 8), j % 8);
    }
  }

  /** Masking changes an address exactly when it has a host bit set. */
  lemma HostBits(addr: seq<bv8>, bytes: seq<bv8>, k: nat)
    requires IsNetwork(addr, bytes, k)
    ensures addr != bytes <==> exists j: nat :: k <= j < 8 * |bytes| && BitAt(bytes, j)
  {
    hide Bit;
    if forall j: nat | k <= j < 8 * |bytes| :: !BitAt(bytes, j) {
      forall i: nat | i < |addr|
        ensures addr[i] == bytes[i]
      {
        forall j: nat | j < 8
          ensures Bit(addr[i], j) == Bit(bytes[i], j)
        {
          assert BitAt(addr, 8 * i + j) == BitAt(bytes, 8 * i + j);
        }
        SameBits(addr[i], bytes[i]);
      }
      assert addr == bytes;
    }
  }

  /** Where the first `k` bits agree, the masked bytes are equal. */
  lemma SameByte(x: seq<bv8>, bytes: seq<bv8>, k: nat, i: nat)
    requires SamePrefix(x, bytes, k) && i < |x|
    ensures And(x[i], TopMask(Part(k, i))) == And(bytes[i], TopMask(Part(k, i)))
  {
    hide Bit, TopMask, And;
    forall j: nat | j < Part(k, i)
      ensures Bit(x[i], j) == Bit(bytes[i], j)
    {
      assert BitAt(x, 8 * i + j) == BitAt(bytes, 8 * i + j);
    }
    MaskedEqual(x[i], bytes[i], Part(k, i));
  }

  lemma SameBit(x: seq<bv8>, bytes: seq<bv8>, k: nat, j: nat)
    requires |x| == |bytes| && j < k && j < 8 * |x|
    requires var i := j / 8; And(x[i], TopMask(Part(k, i))) == And(bytes[i], TopMask(Part(k, i)))
    ensures BitAt(x, j) == BitAt(bytes, j)
  {
    hide Bit, TopMask, And;
    MaskedEqual(x[j / 8], bytes[j / 8], Part(k, j / 8));
    assert j % 8 < Part(k, j / 8);
  }

  /** The comparison of a CIDR entry tests the first `k` bits. */
  lemma MaskedComparison(x: seq<bv8>, addr: seq<bv8>, bytes: seq<bv8>, mask: seq<bv8>, k: nat)
    requires Masked(addr, bytes, mask) && IsMask(mask, k) && |x| == |addr|
    ensures (forall i | 0 <= i < |x| :: And(x[i], mask[i]) == addr[i]) <==> SamePrefix(x, bytes, k)
  {
    hide BitAt, TopMask, Part, And;
    if SamePrefix(x, bytes, k) {
      forall i | 0 <= i < |x|
        ensures And(x[i], mask[i]) == addr[i]
      {
        SameByte(x, bytes, k, i);
      }
    }
    if forall i | 0 <= i < |x| :: And(x[i], mask[i]) == addr[i] {
      forall j: nat | j < k && j < 8 * |x|
        ensures BitAt(x, j) == BitAt(bytes, j)
      {
        assert And(x[j / 8], mask[j / 8]) == addr[j / 8];
        SameBit(x, bytes, k, j);
      }
    }
  }

  // ----- Numbers ---------------------------------------------------------------------------------------------

  /** What `ngx_atoi` accepts. */
  ghost function Number(s: Str): Option<nat> {
    if s != [] && Digits(s) && DecValue(s) <= MAX_INT then Some(DecValue(s)) else None
  }

  lemma NumberGrows(s: Str, t: Str)
    requires Digits(s) && DecValue(s) > MAX_INT
    ensures Number(s + t) == None
  {
    if Digits(s + t) {
      DecGrows(s, t);
    }
  }

  /** `ngx_atoi`, with -1 for NGX_ERROR; the cut-off test keeps the value from overflowing. */
  method Atoi(line: Str) returns (value: int)
    ensures value == match Number(line) case Some(v) => v case None => -1
    ensures value
         == if line != [] && Digits(line) && DecValue(line) <= 0x7fff_ffff_ffff_ffff then DecValue(line) else -1
  {
    hide DecValue;
    if |line| == 0 {
      return -1;
    }
    var cutoff, cutlim := MAX_INT / 10, MAX_INT % 10;
    value := 0;
    assert line[..0] == [];
    assert DecValue([]) == 0 by { EmptyValue(); }
    for i := 0 to |line|
      invariant Digits(line[..i]) && value == DecValue(line[..i]) <= MAX_INT
    {
      var c := line[i];
      assert line[..i + 1] == line[..i] + [c] && line == line[..i + 1] + line[i + 1..];
      if c < 48 || c > 57 {
        return -1;
      }
      DecStep(line[..i], c);
      if value >= cutoff && (value > cutoff || c - 48 > cutlim) {
        NumberGrows(line[..i + 1], line[i + 1..]);
        return -1;
      }
      value := value * 10 + (c - 48);
    }
    assert line[..|line|] == line;
  }

  lemma EmptyValue()
    ensures DecValue([]) == 0
  {
  }

  // ----- Parsing a prefix --------------------------------------------------------------------------------------

  /** What a text like "192.0.2.0/24" denotes: address bytes and the number of bits that count. */
  datatype Prefix = Prefix(family: Family, bytes: seq<bv8>, k: nat)

  function Octet(b: Byte): bv8 {
    b as bv8
  }

  function NetBytes(v: nat): seq<bv8>
    requires v < TWO32
  {
    [Octet(v / 0x100_0000), Octet(v / 65536 % 256), Octet(v / 256 % 256), Octet(v % 256)]
  }

  function ToBits(p: seq<Byte>): (r: seq<bv8>)
    ensures |r| == |p|
  {
    seq(|p|, i requires 0 <= i < |p| => p[i] as bv8)
  }

  /** The index of the first slash, or the length of the text. */
  function SlashAt(text: Str): (s: nat)
    ensures s <= |text| && (s < |text| ==> text[s] == SLASH)
    ensures forall i | 0 <= i < s :: text[i] != SLASH
  {
    if text == [] || text[0] == SLASH then 0 else SlashAt(text[1..]) + 1
  }

  lemma SlashUnique(text: Str, s: nat)
    requires s <= |text| && (s < |text| ==> text[s] == SLASH)
    requires forall i | 0 <= i < s :: text[i] != SLASH
    ensures s == SlashAt(text)
  {
    hide SlashAt;
  }

  /** An address of either family; the text 255.255.255.255 is none. */
  ghost function AnyAddress(a: Str): Option<Prefix> {
    if Quad(a).Some? && Quad(a).value != INADDR_NONE then
      QuadSmall(a);
      Some(Prefix(AfInet, NetBytes(Quad(a).value), 32))
    else
      match Address(a)
      case None => None
      case Some(ws) => Some(Prefix(AfInet6, ToBits(BytesOf(ws)), 128))
  }

  ghost function Denoted(text: Str): Option<Prefix> {
    var s := SlashAt(text);
    match AnyAddress(text[..s])
    case None => None
    case Some(p) =>
      if s == |text| then Some(p)
      else
        match Number(text[s + 1..])
        case None => None
        case Some(k) => if k <= p.k then Some(p.(k := k)) else None
  }

  /** "address/k" is the network of the first `k` bits; an address alone is that of all its bits. */
  lemma SlashText(a: Str, k: nat)
    requires 47 !in a && AnyAddress(a).Some?
    ensures Denoted(a) == AnyAddress(a)
    ensures var p := AnyAddress(a).value;
      Denoted(a + [47] + Dec(k)) == if k <= p.k then Some(p.(k := k)) else None
  {
    hide AnyAddress, DecValue, Dec;
    var text := a + [47] + Dec(k);
    SlashUnique(a, |a|);
    assert a[..|a|] == a;
    assert forall i | 0 <= i < |a| :: text[i] == a[i];
    assert text[|a|] == 47;
    SlashUnique(text, |a|);
    assert text[..|a|] == a && text[|a| + 1..] == Dec(k);
    SmallPrefix(a);
  }

  lemma SmallPrefix(a: Str)
    requires AnyAddress(a).Some?
    ensures AnyAddress(a).value.k <= 128
  {
    hide Quad, Address;
  }

  /** "a.b.c.d" stands for the bytes a, b, c and d, all of whose bits count. */
  lemma DottedAddress(w: Str, x: Str, y: Str, z: Str)
    requires IsOctet(w) && IsOctet(x) && IsOctet(y) && IsOctet(z)
    requires !(DecValue(w) == DecValue(x) == DecValue(y) == DecValue(z) == 255)
    ensures AnyAddress(w + [46] + x + [46] + y + [46] + z)
         == Some(Prefix(AfInet, [Octet(DecValue(w)), Octet(DecValue(x)), Octet(DecValue(y)), Octet(DecValue(z))], 32))
  {
    hide Quad, AnyAddress, DecValue, NetBytes, Octet;
    DottedText(w, x, y, z);
    FourParts(DecValue(w), DecValue(x), DecValue(y), DecValue(z));
    QuadAddress(w + [46] + x + [46] + y + [46] + z,
                0x100_0000 * DecValue(w) + 0x1_0000 * DecValue(x) + 0x100 * DecValue(y) + DecValue(z));
  }

  lemma QuadAddress(text: Str, v: nat)
    requires Quad(text) == Some(v) && v < INADDR_NONE
    ensures AnyAddress(text) == Some(Prefix(AfInet, NetBytes(v), 32))
  {
    hide Quad, NetBytes, Address;
  }

  lemma FourParts(a: nat, b: nat, c: nat, d: nat)
    requires a < 256 && b < 256 && c < 256 && d < 256
    ensures var v := 0x100_0000 * a + 0x1_0000 * b + 0x100 * c + d;
      v < TWO32 && NetBytes(v) == [Octet(a), Octet(b), Octet(c), Octet(d)]
    ensures 0x100_0000 * a + 0x1_0000 * b + 0x100 * c + d >= INADDR_NONE ==> a == b == c == d == 255
  {
    hide Octet;
    Quotients(a, b, c, d);
  }

  lemma Quotients(a: nat, b: nat, c: nat, d: nat)
    requires a < 256 && b < 256 && c < 256 && d < 256
    ensures var v := 0x100_0000 * a + 0x1_0000 * b + 0x100 * c + d;
      v / 0x100_0000 == a && v / 65536 % 256 == b && v / 256 % 256 == c && v % 256 == d
  {
    var v := 0x100_0000 * a + 0x1_0000 * b + 0x100 * c + d;
    assert v / 65536 == 256 * a + b && v / 256 == 65536 * a + 256 * b + c;
  }

  datatype Rc = Ok | Done | Error

  /** `c` is the network that `p` lies in; NGX_DONE tells that host bits were cleared. */
  ghost predicate Holds(c: Cidr, p: Prefix, rc: Rc) {
    && c.family == p.family && IsMask(c.mask, p.k) && Masked(c.addr, p.bytes, c.mask)
    && (rc == Done <==> c.addr != p.bytes) && rc != Error
  }

  /** `ngx_strlchr` for a slash. */
  method FindSlash(text: Str) returns (s: nat)
    ensures s == SlashAt(text)
  {
    hide SlashAt;
    s := 0;
    while s < |text|
      invariant s <= |text|
      invariant forall i | 0 <= i < s :: text[i] != SLASH
    {
      if text[s] == SLASH {
        break;
      }
      s := s + 1;
    }
    SlashUnique(text, s);
  }

  /** Without a length all bits count. */
  lemma FullMask(mask: seq<bv8>, bytes: seq<bv8>)
    requires |mask| == |bytes| && forall i | 0 <= i < |mask| :: mask[i] == 0xff
    ensures IsMask(mask, 8 * |mask|) && Masked(bytes, bytes, mask)
  {
    TopMasks();
    forall i | 0 <= i < |mask|
      ensures mask[i] == TopMask(Part(8 * |mask|, i)) && bytes[i] == And(bytes[i], mask[i])
    {
    }
  }

  /** The AF_INET6 part: sixteen mask bytes from the length, and the address masked in place. */
  method Mask6(bytes: seq<bv8>, k: nat) returns (rc: Rc, addr: array<bv8>, mask: array<bv8>)
    requires |bytes| == 16 && k <= 128
    ensures fresh(addr) && fresh(mask) && addr.Length == mask.Length == 16
    ensures Masked(addr[..], bytes, mask[..]) && IsMask(mask[..], k)
    ensures rc != Error && (rc == Done <==> addr[..] != bytes)
  {
    hide TopMask, And;
    addr := new bv8[16](i requires 0 <= i < 16 => bytes[i]);
    mask := new bv8[16];
    var shift := k;
    rc := Ok;
    ghost var w: nat := 0;
    for i := 0 to 16
      invariant shift == if k <= 8 * i then 0 else k - 8 * i
      invariant forall j | 0 <= j < i :: mask[j] == TopMask(Part(k, j)) && addr[j] == And(bytes[j], mask[j])
      invariant forall j | i <= j < 16 :: addr[j] == bytes[j]
      invariant rc == Ok || (rc == Done && w < i && addr[w] != bytes[w])
      invariant rc == Ok ==> forall j | 0 <= j < i :: addr[j] == bytes[j]
    {
      var s := if shift > 8 then 8 else shift;
      shift := shift - s;
      mask[i] := TopMask(s);
      if addr[i] != And(addr[i], mask[i]) {
        rc, w := Done, i;
        addr[i] := And(addr[i], mask[i]);
      }
    }
    assert rc == Done ==> addr[..][w] != bytes[w];
  }

  /** Byte `i`, in network order, of a 32-bit mask. */
  function MaskByte(m: bv32, i: nat): bv8
    requires i < 4
  {
    if i == 0 then (m >> 24) as bv8
    else if i == 1 then ((m >> 16) & 0xff) as bv8
    else if i == 2 then ((m >> 8) & 0xff) as bv8
    else (m & 0xff) as bv8
  }

  function MaskBytes(m: bv32): seq<bv8> {
    [MaskByte(m, 0), MaskByte(m, 1), MaskByte(m, 2), MaskByte(m, 3)]
  }

  /** `0xffffffffu << (32 - shift)`, the shift by 32 avoided. */
  function Mask32(shift: nat): bv32
    requires shift <= 32
  {
    if shift == 0 then 0 else (0xffff_ffff as bv32) << (32 - shift)
  }

  function TopBytes(k: nat): seq<bv8> {
    [TopMask(Part(k, 0)), TopMask(Part(k, 1)), TopMask(Part(k, 2)), TopMask(Part(k, 3))]
  }

  /** A byte shifted to the right by one, with the last bit of the byte before. */
  function ShiftIn(before: bv8, b: bv8): bv8 {
    (b >> 1) | ((before & 1) << 7)
  }

  /** One more bit in a mask of `s` bits that follows a byte with `before` bits: it goes there if that byte
      is full. */
  lemma TopMaskStep(before: nat, s: nat)
    requires before <= 8 && s <= 8 && (before < 8 ==> s == 0)
    ensures ShiftIn(TopMask(before), TopMask(s)) == TopMask(if before < 8 then 0 else if s < 8 then s + 1 else 8)
  {
    hide TopMask;
    TopMasks();
    if before < 8 {
      match before {
        case 0 => case 1 => case 2 => case 3 => case 4 => case 5 => case 6 => case _ =>
      }
    } else {
      match s {
        case 0 => case 1 => case 2 => case 3 => case 4 => case 5 => case 6 => case 7 => case _ =>
      }
    }
  }

  /** One more bit in the 32-bit mask. */
  lemma Mask32Step(k: nat)
    requires k < 32
    ensures Mask32(k + 1) == (Mask32(k) >> 1) | 0x8000_0000
  {
    hide Mask32;
    if k < 16 {
      Mask32Short(k);
    } else {
      Mask32Long(k);
    }
  }

  lemma Mask32Short(k: nat)
    requires k < 16
    ensures Mask32(k + 1) == (Mask32(k) >> 1) | 0x8000_0000
  {
    match k {
      case 0 => case 1 => case 2 => case 3 => case 4 => case 5 => case 6 => case 7 =>
      case 8 => case 9 => case 10 => case 11 => case 12 => case 13 => case 14 => case _ =>
    }
  }

  lemma Mask32Long(k: nat)
    requires 16 <= k < 32
    ensures Mask32(k + 1) == (Mask32(k) >> 1) | 0x8000_0000
  {
    match k {
      case 16 => case 17 => case 18 => case 19 => case 20 => case 21 => case 22 => case 23 =>
      case 24 => case 25 => case 26 => case 27 => case 28 => case 29 => case 30 => case _ =>
    }
  }

  lemma MaskBytesStep(m: bv32)
    ensures var n, bs := (m >> 1) | 0x8000_0000, MaskBytes(m);
      MaskBytes(n) == [ShiftIn(0xff, bs[0]), ShiftIn(bs[0], bs[1]), ShiftIn(bs[1], bs[2]), ShiftIn(bs[2], bs[3])]
  {
  }

  lemma TopByteStep(k: nat, i: nat)
    requires k < 32 && i < 3
    ensures ShiftIn(TopMask(Part(k, i)), TopMask(Part(k, i + 1))) == TopMask(Part(k + 1, i + 1))
  {
    hide TopMask, ShiftIn;
    TopMaskStep(Part(k, i), Part(k, i + 1));
  }

  lemma FirstByteStep(k: nat)
    requires k < 32
    ensures ShiftIn(0xff, TopMask(Part(k, 0))) == TopMask(Part(k + 1, 0))
  {
    hide TopMask, ShiftIn;
    TopMaskStep(8, Part(k, 0));
    TopMasks();
  }

  lemma {:induction false} Mask32Bytes(k: nat)
    requires k <= 32
    ensures MaskBytes(Mask32(k)) == TopBytes(k)
  {
    hide TopMask, Mask32, ShiftIn, MaskBytes, Part;
    if k == 0 {
      NoMask();
    } else {
      Mask32Bytes(k - 1);
      Mask32Step(k - 1);
      MaskBytesStep(Mask32(k - 1));
      FirstByteStep(k - 1);
      TopByteStep(k - 1, 0);
      TopByteStep(k - 1, 1);
      TopByteStep(k - 1, 2);
    }
  }

  lemma NoMask()
    ensures MaskBytes(Mask32(0)) == TopBytes(0)
  {
  }

  /** The 32-bit mask has the first `k` bits set. */
  lemma Mask32Bits(k: nat)
    requires k <= 32
    ensures IsMask(MaskBytes(Mask32(k)), k)
  {
    hide TopMask, Mask32, MaskBytes;
    Mask32Bytes(k);
  }

  function AndAll(a: seq<bv8>, m: seq<bv8>): (r: seq<bv8>)
    requires |a| == |m|
    ensures |r| == |a| && Masked(r, a, m)
  {
    seq(|a|, i requires 0 <= i < |a| => And(a[i], m[i]))
  }

  /** The AF_INET part. */
  method Mask4(bytes: seq<bv8>, k: nat) returns (rc: Rc, addr: seq<bv8>, mask: seq<bv8>)
    requires |bytes| == 4 && k <= 32
    ensures Masked(addr, bytes, mask) && IsMask(mask, k) && |mask| == 4
    ensures rc != Error && (rc == Done <==> addr != bytes)
  {
    hide TopMask, And, Mask32, MaskByte;
    mask := MaskBytes(Mask32(k));
    Mask32Bits(k);
    addr := bytes;
    if addr == AndAll(addr, mask) {
      return Ok, addr, mask;
    }
    addr := AndAll(addr, mask);
    rc := Done;
  }

  /** The address in front of the slash, IPv4 if it can be. */
  method HostAddress(host: Str) returns (ok: bool, family: Family, bytes: seq<bv8>)
    ensures ok <==> AnyAddress(host).Some?
    ensures ok ==> AnyAddress(host) == Some(Prefix(family, bytes, 8 * |bytes|)) && family != AfUnix
    ensures ok ==> |bytes| == if family == AfInet then 4 else 16
  {
    hide Quad, Address, BytesOf;
    var v := InetAddr(host);
    if v != INADDR_NONE {
      return true, AfInet, NetBytes(v);
    }
    var a := new Byte[16];
    ok := Inet6Addr(host, a);
    family, bytes := AfInet6, ToBits(a[..]);
  }

  /** `ngx_ptocidr`: accepts exactly the texts that denote a network; the stored address keeps the bits that
      count and has no other bit set, and NGX_DONE is returned exactly when such a bit was cleared. */
  method PtoCidr(text: Str) returns (rc: Rc, c: Cidr)
    ensures rc == Error <==> Denoted(text) == None
    ensures rc != Error ==> Holds(c, Denoted(text).value, rc)
  {
    hide AnyAddress, IsMask, Masked, TopMask;
    var s := FindSlash(text);
    c := Cidr(AfUnix, [], []);
    var ok, family, bytes := HostAddress(text[..s]);
    if !ok {
      return Error, c;
    }
    if s == |text| {
      var ones := seq(|bytes|, i => 0xff as bv8);
      FullMask(ones, bytes);
      return Ok, Cidr(family, bytes, ones);
    }
    var shift := Atoi(text[s + 1..]);
    if shift == -1 {
      return Error, c;
    }
    if family == AfInet6 {
      if shift > 128 {
        return Error, c;
      }
      var addr, mask;
      rc, addr, mask := Mask6(bytes, shift);
      return rc, Cidr(family, addr[..], mask[..]);
    }
    if shift > 32 {
      return Error, c;
    }
    var addr, mask;
    rc, addr, mask := Mask4(bytes, shift);
    return rc, Cidr(family, addr, mask);
  }

  // ----- Matching ------------------------------------------------------------------------------------------------

  predicate Shaped(sa: Sockaddr) {
    && (sa.SockInet? ==> |sa.a| == 4)
    && (sa.SockInet6? ==> |sa.p| == 16)
  }

  /** IN6_IS_ADDR_V4MAPPED. */
  predicate IsMapped(p: seq<bv8>)
    requires |p| == 16
  {
    (forall i | 0 <= i < 10 :: p[i] == 0) && p[10] == 0xff && p[11] == 0xff
  }

  /** The family and the bytes that entries are compared with: a mapped address counts as IPv4. */
  function Effective(sa: Sockaddr): (Family, seq<bv8>)
    requires Shaped(sa)
  {
    match sa
    case SockInet(a) => (AfInet, a)
    case SockInet6(p) => if IsMapped(p) then (AfInet, p[12..]) else (AfInet6, p)
    case SockUnix => (AfUnix, [])
  }

  /** ::ffff:a.b.c.d counts as a.b.c.d, and no other IPv6 address as one of IPv4. */
  lemma MappedIs(p: seq<bv8>)
    requires |p| == 16
    ensures Effective(SockInet6(p)).0 == AfInet <==> p[..12] == [0, 0, 0, 0, 0, 0, 0, 0, 0, 0, 0xff, 0xff]
    ensures Effective(SockInet6(p)) == if p[..12] == [0, 0, 0, 0, 0, 0, 0, 0, 0, 0, 0xff, 0xff] then (AfInet, p[12..])
                                       else (AfInet6, p)
  {
    var head := p[..12];
    assert forall i | 0 <= i < 12 :: head[i] == p[i];
    if IsMapped(p) {
      assert head == [0, 0, 0, 0, 0, 0, 0, 0, 0, 0, 0xff, 0xff];
    }
  }

  /** An entry as `ngx_ptocidr` fills it in, or one for AF_UNIX. */
  predicate EntryShaped(c: Cidr) {
    && (c.family == AfInet ==> |c.addr| == |c.mask| == 4)
    && (c.family == AfInet6 ==> |c.addr| == |c.mask| == 16)
  }

  ghost predicate Admits(c: Cidr, sa: Sockaddr)
    requires Shaped(sa) && EntryShaped(c)
  {
    var (family, x) := Effective(sa);
    && c.family == family
    && (family == AfUnix || forall i | 0 <= i < |x| :: And(x[i], c.mask[i]) == c.addr[i])
  }

  /** `ngx_cidr_match`. */
  method CidrMatch(sa: Sockaddr, cidrs: seq<Cidr>) returns (ok: bool)
    requires Shaped(sa) && forall i | 0 <= i < |cidrs| :: EntryShaped(cidrs[i])
    ensures ok <==> exists i | 0 <= i < |cidrs| :: Admits(cidrs[i], sa)
  {
    hide And;
    var family, x;
    match sa {
      case SockInet(a) => family, x := AfInet, a;
      case SockInet6(p) =>
        family, x := AfInet6, p;
        if IsMapped(p) {
          family, x := AfInet, p[12..];
        }
      case SockUnix => family, x := AfUnix, [];
    }
    assert (family, x) == Effective(sa);
    for i := 0 to |cidrs|
      invariant forall j | 0 <= j < i :: !Admits(cidrs[j], sa)
    {
      if cidrs[i].family != family {
        continue;
      }
      var matches := true;
      match family {
        case AfUnix =>
        case AfInet6 =>
          var n := 0;
          while n < 16
            invariant 0 <= n <= 16 && forall j | 0 <= j < n :: And(x[j], cidrs[i].mask[j]) == cidrs[i].addr[j]
          {
            if And(x[n], cidrs[i].mask[n]) != cidrs[i].addr[n] {
              matches := false;
              break;
            }
            n := n + 1;
          }
          assert matches <==> Admits(cidrs[i], sa);
        case AfInet =>
          matches := AndAll(x, cidrs[i].mask) == cidrs[i].addr;
          MaskedAll(x, cidrs[i].mask, cidrs[i].addr);
      }
      if matches {
        assert Admits(cidrs[i], sa);
        return true;
      }
    }
    ok := false;
  }

  lemma MaskedAll(x: seq<bv8>, mask: seq<bv8>, addr: seq<bv8>)
    requires |x| == |mask| == |addr|
    ensures AndAll(x, mask) == addr <==> forall i | 0 <= i < |x| :: And(x[i], mask[i]) == addr[i]
  {
    hide And;
  }

  lemma DenotedShape(text: Str)
    requires Denoted(text).Some?
    ensures var p := Denoted(text).value;
      && p.family != AfUnix && p.k <= 8 * |p.bytes| && |p.bytes| == if p.family == AfInet then 4 else 16
  {
    hide Quad, Address, Number;
  }

  /** An entry parsed from a text admits exactly the addresses of its family, mapped ones counting as IPv4,
      whose first `k` bits are those of the address in the text. */
  lemma AdmitsIff(c: Cidr, text: Str, rc: Rc, sa: Sockaddr)
    requires Shaped(sa) && Denoted(text).Some? && Holds(c, Denoted(text).value, rc)
    ensures EntryShaped(c)
    ensures var p := Denoted(text).value;
      Admits(c, sa) <==> Effective(sa).0 == p.family && SamePrefix(Effective(sa).1, p.bytes, p.k)
  {
    hide And, TopMask, SamePrefix, Denoted, IsMask;
    var p := Denoted(text).value;
    DenotedShape(text);
    var (family, x) := Effective(sa);
    if family == p.family {
      MaskedComparison(x, c.addr, p.bytes, c.mask, p.k);
    }
  }

  /** What the return code tells, and what is stored: no host bit. */
  lemma StoredNetwork(c: Cidr, text: Str, rc: Rc)
    requires Denoted(text).Some? && Holds(c, Denoted(text).value, rc)
    ensures var p := Denoted(text).value;
      && IsNetwork(c.addr, p.bytes, p.k)
      && (rc == Done <==> exists j: nat :: p.k <= j < 8 * |p.bytes| && BitAt(p.bytes, j))
  {
    hide Denoted, BitAt;
    var p := Denoted(text).value;
    MaskedIsNetwork(c.addr, p.bytes, c.mask, p.k);
    HostBits(c.addr, p.bytes, p.k);
  }
}
