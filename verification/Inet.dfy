/** Dotted IPv4 text as `ngx_inet_addr` reads it, and the splitting of text at a separator. */
module Inet {
  import opened Bytes

  const TWO32: int := 0x1_0000_0000

  /** INADDR_NONE; being all ones it is the same in both byte orders. */
  const INADDR_NONE: int := TWO32 - 1

  // ----- Splitting at a separator ------------------------------------------------------------------------

  /** The fields of `s` between separators; there is always at least one. */
  function Fields(s: Str, sep: Byte): (r: seq<Str>)
    ensures r != []
  {
    if s == [] then [[]]
    else
      var fs, c := Fields(s[..|s| - 1], sep), s[|s| - 1];
      if c == sep then fs + [[]] else fs[..|fs| - 1] + [fs[|fs| - 1] + [c]]
  }

  function Join(fs: seq<Str>, sep: Byte): Str {
    if fs == [] then [] else if |fs| == 1 then fs[0] else Join(fs[..|fs| - 1], sep) + [sep] + fs[|fs| - 1]
  }

  ghost predicate Clean(fs: seq<Str>, sep: Byte) {
    forall i | 0 <= i < |fs| :: sep !in fs[i]
  }

  /** The fields when `c` follows. */
  ghost function Grown(fs: seq<Str>, c: Byte, sep: Byte): (r: seq<Str>)
    requires fs != []
    ensures r != []
  {
    if c == sep then fs + [[]] else fs[..|fs| - 1] + [fs[|fs| - 1] + [c]]
  }

  /** The fields of two texts together: the one in the middle has parts on both sides. */
  ghost function Glued(a: seq<Str>, b: seq<Str>): seq<Str>
    requires a != [] && b != []
  {
    a[..|a| - 1] + [a[|a| - 1] + b[0]] + b[1..]
  }

  lemma FieldsStep(s: Str, c: Byte, sep: Byte)
    ensures Fields(s + [c], sep) == Grown(Fields(s, sep), c, sep)
  {
    assert (s + [c])[..|s|] == s;
  }

  /** Splitting loses nothing, and no field contains the separator. */
  lemma {:induction false} JoinFields(s: Str, sep: Byte)
    ensures Join(Fields(s, sep), sep) == s && Clean(Fields(s, sep), sep)
  {
    if s == [] {
    } else {
      hide Fields, Join, Clean, Grown;
      var t, c := s[..|s| - 1], s[|s| - 1];
      JoinFields(t, sep);
      assert s == t + [c];
      FieldsStep(t, c, sep);
      GrownJoins(Fields(t, sep), c, sep);
    }
  }

  lemma GrownJoins(fs: seq<Str>, c: Byte, sep: Byte)
    requires fs != [] && Clean(fs, sep)
    ensures Join(Grown(fs, c, sep), sep) == Join(fs, sep) + [c] && Clean(Grown(fs, c, sep), sep)
  {
    hide Join;
    JoinStep(fs, c, sep);
  }

  lemma JoinStep(fs: seq<Str>, c: Byte, sep: Byte)
    requires fs != []
    ensures Join(fs + [[]], sep) == Join(fs, sep) + [sep]
    ensures var gs := fs[..|fs| - 1] + [fs[|fs| - 1] + [c]]; Join(gs, sep) == Join(fs, sep) + [c]
  {
    assert (fs + [[]])[..|fs|] == fs;
    var gs := fs[..|fs| - 1] + [fs[|fs| - 1] + [c]];
    assert gs[..|gs| - 1] == fs[..|fs| - 1];
  }

  /** Splitting a concatenation. */
  lemma {:induction false} FieldsAppend(s: Str, t: Str, sep: Byte)
    ensures Fields(s + t, sep) == Glued(Fields(s, sep), Fields(t, sep))
    decreases |t|
  {
    if t == [] {
      assert s + [] == s;
      GluedOne(Fields(s, sep));
    } else {
      hide Fields, Grown, Glued;
      var u, c := t[..|t| - 1], t[|t| - 1];
      assert s + t == (s + u) + [c] && t == u + [c];
      FieldsAppend(s, u, sep);
      FieldsStep(s + u, c, sep);
      FieldsStep(u, c, sep);
      GluedGrown(Fields(s, sep), Fields(u, sep), c, sep);
    }
  }

  lemma GluedOne(a: seq<Str>)
    requires a != []
    ensures Glued(a, [[]]) == a
  {
    assert a[|a| - 1] + [] == a[|a| - 1];
  }

  lemma GluedGrown(a: seq<Str>, b: seq<Str>, c: Byte, sep: Byte)
    requires a != [] && b != []
    ensures Grown(Glued(a, b), c, sep) == Glued(a, Grown(b, c, sep))
  {
    var front, last := a[..|a| - 1], a[|a| - 1];
    if c != sep {
      if |b| == 1 {
        assert last + (b[0] + [c]) == (last + b[0]) + [c];
      } else {
        assert b[1..][..|b| - 2] == b[1..|b| - 1];
      }
    }
  }

  /** A text without separator is one field. */
  lemma {:induction false} OneField(s: Str, sep: Byte)
    requires sep !in s
    ensures Fields(s, sep) == [s]
  {
    if s != [] {
      assert s == s[..|s| - 1] + [s[|s| - 1]];
      OneField(s[..|s| - 1], sep);
    }
  }

  /** Joined fields are split again into the same fields. */
  lemma {:induction false} FieldsJoin(fs: seq<Str>, sep: Byte)
    requires fs != [] && Clean(fs, sep)
    ensures Fields(Join(fs, sep), sep) == fs
    decreases |fs|
  {
    hide Fields;
    var last := fs[|fs| - 1];
    OneField(last, sep);
    if |fs| > 1 {
      var front := fs[..|fs| - 1];
      FieldsJoin(front, sep);
      FieldsStep(Join(front, sep), sep, sep);
      FieldsAppend(Join(front, sep) + [sep], last, sep);
      assert Join(fs, sep) == (Join(front, sep) + [sep]) + last;
      LastField(front, last);
      assert fs == front + [last];
    }
  }

  lemma LastField(front: seq<Str>, last: Str)
    ensures var a, b := front + [[]], [last];
      a[..|a| - 1] + [a[|a| - 1] + b[0]] + b[1..] == front + [last]
  {
    assert [] + last == last;
  }

  // ----- Decimal numbers and dotted quads ---------------------------------------------------------------

  predicate IsDigit(c: Byte) {
    48 <= c <= 57
  }

  ghost predicate Digits(s: Str) {
    forall i | 0 <= i < |s| :: IsDigit(s[i])
  }

  function DecValue(s: Str): nat
    requires Digits(s)
  {
    if s == [] then 0 else DecValue(s[..|s| - 1]) * 10 + (s[|s| - 1] - 48)
  }

  lemma DecStep(s: Str, c: Byte)
    requires Digits(s) && IsDigit(c)
    ensures Digits(s + [c]) && DecValue(s + [c]) == DecValue(s) * 10 + (c - 48)
  {
    assert (s + [c])[..|s|] == s;
  }

  lemma {:induction false} DecGrows(s: Str, t: Str)
    requires Digits(s + t)
    ensures Digits(s) && DecValue(s) <= DecValue(s + t)
    decreases |t|
  {
    assert forall i | 0 <= i < |s| :: s[i] == (s + t)[i];
    if t == [] {
      assert s + t == s;
    } else {
      assert (s + t)[..|s + t| - 1] == s + t[..|t| - 1];
      DecGrows(s, t[..|t| - 1]);
    }
  }

  /** An octet as the parser takes it: any number of digits, even none, with a value below 256. */
  ghost predicate IsOctet(f: Str) {
    Digits(f) && DecValue(f) < 256
  }

  ghost predicate Octets(fs: seq<Str>) {
    forall i | 0 <= i < |fs| :: IsOctet(fs[i])
  }

  /** The fields as digits in base 256. */
  ghost function QuadValue(fs: seq<Str>): nat
    requires Octets(fs)
  {
    if fs == [] then 0 else QuadValue(fs[..|fs| - 1]) * 256 + DecValue(fs[|fs| - 1])
  }

  /** The address, in host order, that a dotted text stands for. */
  ghost function Quad(text: Str): Option<nat> {
    var fs := Fields(text, DOT);
    if |fs| == 4 && Octets(fs) then Some(QuadValue(fs)) else None
  }

  lemma NoDigits()
    ensures IsOctet([]) && DecValue([]) == 0 && Octets([]) && QuadValue([]) == 0
  {
  }

  lemma QuadValueStep(fs: seq<Str>, f: Str)
    requires Octets(fs) && IsOctet(f)
    ensures Octets(fs + [f]) && QuadValue(fs + [f]) == QuadValue(fs) * 256 + DecValue(f)
  {
    assert (fs + [f])[..|fs|] == fs;
  }

  lemma QuadBounds(fs: seq<Str>)
    requires Octets(fs) && |fs| <= 4
    ensures |fs| <= 3 ==> QuadValue(fs) < 0x100_0000
    ensures QuadValue(fs) < TWO32
  {
    if |fs| >= 1 {
      QuadBounds(fs[..|fs| - 1]);
      if |fs| <= 3 {
        SmallQuad(fs);
      }
    }
  }

  lemma SmallQuad(fs: seq<Str>)
    requires Octets(fs) && |fs| <= 3
    ensures |fs| <= 1 ==> QuadValue(fs) < 256
    ensures |fs| <= 2 ==> QuadValue(fs) < 65536
    ensures QuadValue(fs) < 0x100_0000
  {
    if |fs| >= 1 {
      SmallQuad(fs[..|fs| - 1]);
    }
  }

  /** A field that is no octet stays so whatever follows. */
  lemma BadFieldStays(s: Str, c: Byte, t: Str)
    requires c != DOT
    requires var fs := Fields(s, DOT); !IsOctet(fs[|fs| - 1] + [c])
    ensures Quad(s + [c] + t) == None
  {
    FieldsStep(s, c, DOT);
    FieldsAppend(s + [c], t, DOT);
    var fs, gs := Fields(s, DOT), Fields(t, DOT);
    var bad, all := fs[|fs| - 1] + [c], Fields(s + [c] + t, DOT);
    assert all[|fs| - 1] == bad + gs[0];
    if IsOctet(bad + gs[0]) {
      DecGrows(bad, gs[0]);
    }
  }

  /** `ngx_inet_addr`, in host byte order: the address of the dotted text, INADDR_NONE when there is none.
      So 255.255.255.255 cannot be told from a failure. */
  method InetAddr(text: Str) returns (r: int)
    ensures r == match Quad(text) case Some(v) => v case None => INADDR_NONE
    ensures 0 <= r < TWO32
  {
    hide Quad, QuadValue, Fields, Octets, DecValue;
    var addr, octet, n := 0, 0, 0;
    assert text[..0] == [];
    Start();
    for p := 0 to |text|
      invariant ReadSoFar(text[..p], addr, octet, n)
    {
      var c := text[p];
      assert text[..p + 1] == text[..p] + [c];
      assert text == text[..p] + [c] + text[p + 1..];
      if 48 <= c <= 57 {
        DigitStep(text[..p], c, addr, octet, n);
        octet := octet * 10 + (c - 48);
        if octet > 255 {
          BadFieldStays(text[..p], c, text[p + 1..]);
          return INADDR_NONE;
        }
        continue;
      }
      if c == DOT {
        DotStep(text[..p], addr, octet, n);
        addr := (addr * 256 + octet) % TWO32;
        octet := 0;
        n := n + 1;
        continue;
      }
      NotDigit(text[..p], c);
      BadFieldStays(text[..p], c, text[p + 1..]);
      return INADDR_NONE;
    }
    assert text[..|text|] == text;
    Finish(text, addr, octet, n);
    if n == 3 {
      addr := (addr * 256 + octet) % TWO32;
      return addr;
    }
    return INADDR_NONE;
  }

  /** The loop's variables after the text `s`. */
  ghost predicate ReadSoFar(s: Str, addr: int, octet: int, n: int) {
    var fs := Fields(s, DOT);
    && Octets(fs)
    && n == |fs| - 1
    && octet == DecValue(fs[n])
    && (n <= 3 ==> addr == QuadValue(fs[..n]))
  }

  lemma Start()
    ensures ReadSoFar([], 0, 0, 0)
  {
    assert Fields([], DOT)[..0] == [];
  }

  lemma DigitStep(s: Str, c: Byte, addr: int, octet: int, n: int)
    requires ReadSoFar(s, addr, octet, n) && IsDigit(c)
    ensures octet * 10 + (c - 48) <= 255 ==> ReadSoFar(s + [c], addr, octet * 10 + (c - 48), n)
    ensures octet * 10 + (c - 48) > 255 ==> !IsOctet(Fields(s, DOT)[n] + [c])
  {
    hide Fields, DecValue, QuadValue;
    FieldsStep(s, c, DOT);
    var fs, gs := Fields(s, DOT), Fields(s + [c], DOT);
    DecStep(fs[n], c);
    assert gs[..n] == fs[..n] && gs[n] == fs[n] + [c];
  }

  lemma NotDigit(s: Str, c: Byte)
    requires !IsDigit(c)
    ensures !IsOctet(Fields(s, DOT)[|Fields(s, DOT)| - 1] + [c])
  {
    var f := Fields(s, DOT)[|Fields(s, DOT)| - 1] + [c];
    assert f[|f| - 1] == c;
  }

  lemma DotStep(s: Str, addr: int, octet: int, n: int)
    requires ReadSoFar(s, addr, octet, n)
    ensures ReadSoFar(s + [DOT], (addr * 256 + octet) % TWO32, 0, n + 1)
  {
    hide Fields, QuadValue, DecValue;
    NoDigits();
    FieldsStep(s, DOT, DOT);
    var fs, gs := Fields(s, DOT), Fields(s + [DOT], DOT);
    assert gs[..n + 1] == fs && gs[n + 1] == [];
    if n <= 2 {
      assert fs == fs[..n] + [fs[n]];
      QuadValueStep(fs[..n], fs[n]);
      QuadBounds(fs);
    }
  }

  lemma Finish(s: Str, addr: int, octet: int, n: int)
    requires ReadSoFar(s, addr, octet, n)
    ensures n == 3 ==> Quad(s) == Some((addr * 256 + octet) % TWO32)
    ensures n != 3 ==> Quad(s) == None
  {
    hide QuadValue;
    var fs := Fields(s, DOT);
    assert fs == fs[..n] + [fs[n]];
    if n == 3 {
      QuadValueStep(fs[..n], fs[n]);
      QuadBounds(fs);
    }
  }

  // ----- Printing ------------------------------------------------------------------------------------------

  /** "%ud". */
  function Dec(v: nat): (r: Str)
    ensures r != [] && Digits(r) && DecValue(r) == v
  {
    var last: Str := [48 + v % 10];
    assert last[..0] == [];
    if v < 10 then last
    else
      DecStep(Dec(v / 10), 48 + v % 10);
      Dec(v / 10) + last
  }

  /** "%ud.%ud.%ud.%ud" of an address in host order. */
  function DottedFields(v: nat): seq<Str> {
    [Dec(v / 0x100_0000), Dec(v / 65536 % 256), Dec(v / 256 % 256), Dec(v % 256)]
  }

  function Dotted(v: nat): Str {
    Join(DottedFields(v), DOT)
  }

  /** Decimal digits, and no zero in front. */
  lemma {:induction false} DecShortest(v: nat)
    ensures forall i | 0 <= i < |Dec(v)| :: '0' as int <= Dec(v)[i] <= '9' as int
    ensures v < 10 ==> Dec(v) == ['0' as int + v]
    ensures v > 0 ==> Dec(v)[0] != '0' as int
  {
    if v >= 10 {
      DecShortest(v / 10);
    }
  }

  /** Four numbers below 256 with dots between them: the first one is the highest byte. */
  lemma DottedText(w: Str, x: Str, y: Str, z: Str)
    requires IsOctet(w) && IsOctet(x) && IsOctet(y) && IsOctet(z)
    ensures Quad(w + [46] + x + [46] + y + [46] + z)
         == Some(0x100_0000 * DecValue(w) + 0x1_0000 * DecValue(x) + 0x100 * DecValue(y) + DecValue(z))
  {
    hide DecValue, QuadValue, Octets, Fields, Join, Clean, Quad;
    FourJoined(w, x, y, z);
    FourClean(w, x, y, z);
    FieldsJoin([w, x, y, z], DOT);
    FourOctets(w, x, y, z);
    QuadOf(w + [46] + x + [46] + y + [46] + z, [w, x, y, z]);
  }

  lemma QuadOf(text: Str, fs: seq<Str>)
    requires Fields(text, DOT) == fs && |fs| == 4 && Octets(fs)
    ensures Quad(text) == Some(QuadValue(fs))
  {
  }

  lemma FourClean(w: Str, x: Str, y: Str, z: Str)
    requires Digits(w) && Digits(x) && Digits(y) && Digits(z)
    ensures Clean([w, x, y, z], DOT)
  {
  }

  lemma FourJoined(w: Str, x: Str, y: Str, z: Str)
    ensures Join([w, x, y, z], DOT) == w + [46] + x + [46] + y + [46] + z
  {
    assert [w, x, y, z][..3] == [w, x, y] && [w, x, y][..2] == [w, x] && [w, x][..1] == [w];
    assert Join([w, x], DOT) == w + [46] + x;
    assert Join([w, x, y], DOT) == w + [46] + x + [46] + y;
  }

  /** A printed address is read back as itself, INADDR_NONE included. */
  lemma DottedRoundTrip(v: nat)
    requires v < TWO32
    ensures Quad(Dotted(v)) == Some(v)
  {
    hide Dec, DecValue, QuadValue, Octets, Fields, Join;
    var fs := DottedFields(v);
    assert Clean(fs, DOT);
    FieldsJoin(fs, DOT);
    FourOctets(fs[0], fs[1], fs[2], fs[3]);
    Base256(v);
  }

  lemma FourOctets(a: Str, b: Str, c: Str, d: Str)
    requires IsOctet(a) && IsOctet(b) && IsOctet(c) && IsOctet(d)
    ensures Octets([a, b, c, d])
    ensures QuadValue([a, b, c, d]) == ((DecValue(a) * 256 + DecValue(b)) * 256 + DecValue(c)) * 256 + DecValue(d)
  {
    hide Octets, QuadValue, DecValue, IsOctet;
    NoDigits();
    QuadValueStep([], a);
    assert [] + [a] == [a];
    QuadValueStep([a], b);
    assert [a] + [b] == [a, b];
    QuadValueStep([a, b], c);
    assert [a, b] + [c] == [a, b, c];
    QuadValueStep([a, b, c], d);
    assert [a, b, c] + [d] == [a, b, c, d];
  }

  lemma Base256(v: nat)
    requires v < TWO32
    ensures ((v / 0x100_0000 * 256 + v / 65536 % 256) * 256 + v / 256 % 256) * 256 + v % 256 == v
    ensures v / 0x100_0000 < 256
  {
    assert v / 256 / 256 == v / 65536 && v / 65536 / 256 == v / 0x100_0000;
  }
}
