/** Byte strings, fixed-width integers and little-endian words shared by the other modules. */
module Bytes {

  type Byte = x: int | 0 <= x < 256
  type Str = seq<Byte>

  const TWO16: int := 0x1_0000
  const TWO64: int := 0x1_0000_0000_0000_0000

  const DOT: Byte := 46
  const STAR: Byte := 42

  datatype Option<T> = None | Some(value: T)

  /** `ngx_tolower`: only the ASCII capitals change. */
  function Lower(c: Byte): Byte {
    if 65 <= c <= 90 then c + 32 else c
  }

  /** "A" to "Z" become "a" to "z", and every other byte stays. */
  lemma Capitals(s: Str)
    ensures forall i | 0 <= i < |s| ::
      if 'A' as int <= s[i] <= 'Z' as int then LowerStr(s)[i] - 'a' as int == s[i] - 'A' as int
      else LowerStr(s)[i] == s[i]
  {
  }

  function LowerStr(s: Str): (r: Str)
    ensures |r| == |s|
    ensures forall i | 0 <= i < |s| :: r[i] == Lower(s[i])
  {
    seq(|s|, i requires 0 <= i < |s| => Lower(s[i]))
  }

  ghost predicate IsLower(s: Str) {
    forall i | 0 <= i < |s| :: !(65 <= s[i] <= 90)
  }

  lemma LowerStrFixesLower(s: Str)
    requires IsLower(s)
    ensures LowerStr(s) == s
  {
  }

  /** The `n` low-order bytes of `v`, least significant first. */
  function LittleEndian(v: nat, n: nat): (r: seq<Byte>)
    ensures |r| == n
  {
    if n == 0 then [] else [v % 256] + LittleEndian(v / 256, n - 1)
  }

  function FromLittleEndian(s: seq<Byte>): nat {
    if s == [] then 0 else s[0] + 256 * FromLittleEndian(s[1..])
  }

  function Pow256(n: nat): nat {
    if n == 0 then 1 else 256 * Pow256(n - 1)
  }

  lemma {:induction false} LittleEndianRoundTrip(v: nat, n: nat)
    requires v < Pow256(n)
    ensures FromLittleEndian(LittleEndian(v, n)) == v
  {
    if n > 0 {
      assert v / 256 < Pow256(n - 1);
      LittleEndianRoundTrip(v / 256, n - 1);
      assert LittleEndian(v, n)[1..] == LittleEndian(v / 256, n - 1);
    }
  }

  lemma Pow256Values()
    ensures Pow256(2) == TWO16 && Pow256(8) == TWO64
  {
    assert Pow256(2) == 256 * Pow256(1);
    assert Pow256(4) == 256 * Pow256(3) == 256 * 256 * Pow256(2);
    assert Pow256(6) == 256 * Pow256(5) == 256 * 256 * Pow256(4);
    assert Pow256(8) == 256 * Pow256(7) == 256 * 256 * Pow256(6);
  }

  lemma SliceStep<T>(s: seq<T>, n: nat, i: nat)
    requires n <= i < |s|
    ensures s[n..i + 1] == s[n..i] + [s[i]]
  {
  }

  lemma SliceOfSlice<T>(s: seq<T>, a: nat, b: nat, i: nat, j: nat)
    requires a <= b <= |s| && i <= j <= b - a
    ensures s[a..b][i..j] == s[a + i..a + j]
  {
    var t, u, v := s[a..b], s[a..b][i..j], s[a + i..a + j];
    forall k | 0 <= k < j - i
      ensures u[k] == v[k]
    {
      assert u[k] == t[i + k] == s[a + (i + k)];
    }
  }

  lemma SliceOfRest<T>(s: seq<T>, i: nat, j: nat)
    requires 1 <= i <= j <= |s|
    ensures s[1..][i - 1..j - 1] == s[i..j]
  {
    assert s[1..] == s[1..|s|];
    SliceOfSlice(s, 1, |s|, i - 1, j - 1);
  }

  lemma SliceSplit<T>(s: seq<T>, n: nat, i: nat)
    requires n <= i <= |s|
    ensures s[..i] == s[..n] + s[n..i] && s == s[..i] + s[i..]
  {
  }

  lemma SliceInit<T>(s: seq<T>, n: nat, i: nat)
    requires n < i <= |s|
    ensures s[n..i][..i - n - 1] == s[n..i - 1] && s[n..i][i - n - 1] == s[i - 1]
    ensures s[..|s| - 1][n..i - 1] == s[n..i - 1]
  {
  }

  lemma SliceJoin<T>(s: seq<T>, a: nat, b: nat, c: nat)
    requires a <= b <= c <= |s|
    ensures s[a..b] + s[b..c] == s[a..c]
  {
  }

  lemma AppendSlices<T>(a: seq<T>, b: seq<T>, k: nat)
    requires k <= |b|
    ensures (a + b)[|a| + k..] == b[k..] && (a + b)[..|a| + k] == a + b[..k]
    ensures (a + b)[|a|..] == b && (a + b)[..|a|] == a
  {
  }

  lemma AppendAssoc<T>(a: seq<T>, b: seq<T>, c: seq<T>)
    ensures (a + b) + c == a + (b + c)
  {
  }

  /** `ngx_memcpy` of `s` to `data` at `o`. */
  method Copy<T>(data: array<T>, o: nat, s: seq<T>)
    requires o + |s| <= data.Length
    modifies data
    ensures data[..] == old(data[..o]) + s + old(data[o + |s|..])
  {
    ghost var was := data[..];
    for i := 0 to |s|
      invariant forall k | 0 <= k < data.Length :: data[k] == if o <= k < o + i then s[k - o] else was[k]
    {
      data[o + i] := s[i];
    }
    assert data[..] == was[..o] + s + was[o + |s|..];
  }
}
