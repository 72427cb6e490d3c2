/** The static hash of ngx_hash.c: packing the keys into byte-addressed buckets, and the lookup.
    Addresses are numbers, 0 being NULL; a table keeps the one memory chunk its buckets lie in. */
module HashTable {
  import opened Bytes

  /** `sizeof(void *)`. */
  const PTR: nat := 8

  /** A key handed to `ngx_hash_init`; `None` is a key whose data pointer is NULL. */
  datatype Key = Key(name: Option<Str>, keyHash: nat, value: nat)

  /** What is stored for a present key: the lower-cased name. */
  datatype Entry = Entry(name: Str, hash: nat, value: nat)

  /** `ngx_hash_t` together with the chunk at address `base` that holds its elements. */
  datatype Table = Table(buckets: seq<nat>, size: nat, base: nat, bytes: seq<Byte>)

  type CacheLine = n: nat | 8 <= n <= 4096 && n % 8 == 0 witness 64

  datatype Config = Config(maxSize: nat, bucketSize: nat, cacheLine: CacheLine)

  /** Which of the three allocations of one build succeed. */
  datatype Allocs = Allocs(test: bool, buckets: bool, elts: bool)

  // ----- The layout in terms of the keys ---------------------------------------------------

  /** `ngx_align` for a power of two `a`. */
  function AlignUp(x: nat, a: nat): (r: nat)
    requires a > 0
    ensures x <= r < x + a
  {
    var y := x + a - 1;
    y - y % a
  }

  /** A cache line is a whole number of pointers, so its multiples are aligned for elements. */
  lemma AlignedToLine(x: nat, line: CacheLine)
    ensures AlignUp(x, line) % 8 == 0
  {
    var y, m := x + line - 1, line / 8;
    var q := y / line;
    assert line == 8 * m;
    assert y - y % line == line * q;
    assert line * q == 8 * (m * q) by {
      assert (8 * m) * q == 8 * (m * q);
    }
  }

  /** `NGX_HASH_ELT_SIZE`: value pointer, then length and name padded to the pointer size. */
  function EltSize(name: Str): (r: nat)
    ensures |name| + 10 <= r
  {
    PTR + AlignUp(|name| + 2, PTR)
  }

  /** The element of a name: a pointer, a 16-bit length and the name, up to a multiple of eight bytes. */
  lemma EltSizeIs(name: Str)
    ensures EltSize(name) % 8 == 0 && 8 + 2 + |name| <= EltSize(name) < 8 + 2 + |name| + 8
  {
  }

  /** `ngx_hash_key`: the polynomial hash in a 64-bit word. */
  function HashKey(s: Str): (r: nat)
    ensures r < TWO64
  {
    if s == [] then 0 else (HashKey(s[..|s| - 1]) * 31 + s[|s| - 1]) % TWO64
  }

  /** The hash of a name is that of its bytes as digits in base 31, modulo 2^64. */
  lemma HashGrows(s: Str, c: Byte)
    ensures HashKey([]) == 0
    ensures HashKey(s + [c]) == (31 * HashKey(s) + c) % 0x1_0000_0000_0000_0000
  {
    assert (s + [c])[..|s|] == s;
  }

  function OfKey(k: Key): seq<Entry> {
    match k.name
    case None => []
    case Some(s) => [Entry(LowerStr(s), k.keyHash, k.value)]
  }

  /** The entries of the present keys, in order. */
  function Entries(names: seq<Key>): seq<Entry> {
    if names == [] then [] else Entries(names[..|names| - 1]) + OfKey(names[|names| - 1])
  }

  /** The entries that hash to bucket `i` of `size`, in order. */
  function Bucket(es: seq<Entry>, size: nat, i: nat): seq<Entry>
    requires size > 0
  {
    if es == [] then []
    else
      var e := es[|es| - 1];
      Bucket(es[..|es| - 1], size, i) + if e.hash % size == i then [e] else []
  }

  /** The bytes a run of elements takes. */
  function Size(es: seq<Entry>): nat {
    if es == [] then 0 else Size(es[..|es| - 1]) + EltSize(es[|es| - 1].name)
  }

  function BucketBytes(es: seq<Entry>, size: nat, i: nat): nat
    requires size > 0
  {
    Size(Bucket(es, size, i))
  }

  ghost predicate Fits(es: seq<Entry>, size: nat, limit: nat)
    requires size > 0
  {
    forall i | 0 <= i < size :: BucketBytes(es, size, i) <= limit
  }

  lemma EntriesStep(names: seq<Key>, n: nat)
    requires n < |names|
    ensures Entries(names[..n + 1]) == Entries(names[..n]) + OfKey(names[n])
  {
    assert names[..n + 1][..n] == names[..n];
  }

  lemma SizeStep(es: seq<Entry>, e: Entry)
    ensures Size(es + [e]) == Size(es) + EltSize(e.name)
  {
    assert (es + [e])[..|es|] == es;
  }

  lemma BucketStep(es: seq<Entry>, e: Entry, size: nat, i: nat)
    requires size > 0
    ensures Bucket(es + [e], size, i)
         == if e.hash % size == i then Bucket(es, size, i) + [e] else Bucket(es, size, i)
    ensures BucketBytes(es + [e], size, i)
         == BucketBytes(es, size, i) + if e.hash % size == i then EltSize(e.name) else 0
  {
    assert (es + [e])[..|es|] == es;
    SizeStep(Bucket(es, size, i), e);
    assert Bucket(es, size, i) + [] == Bucket(es, size, i);
  }

  /** One more key, seen from bucket `i`. */
  lemma KeyStep(names: seq<Key>, n: nat, size: nat, i: nat)
    requires n < |names| && size > 0
    ensures var es, fs, k := Entries(names[..n]), Entries(names[..n + 1]), names[n];
      && Bucket(fs, size, i) == (if k.name.Some? && k.keyHash % size == i
                                 then Bucket(es, size, i) + OfKey(k) else Bucket(es, size, i))
      && BucketBytes(fs, size, i) == BucketBytes(es, size, i)
        + (if k.name.Some? && k.keyHash % size == i then EltSize(k.name.value) else 0)
  {
    hide Entries, Bucket, BucketBytes, EltSize;
    EntriesStep(names, n);
    var es, k := Entries(names[..n]), names[n];
    if k.name.Some? {
      BucketStep(es, OfKey(k)[0], size, i);
      SameSize(k.name.value, LowerStr(k.name.value));
    } else {
      assert es + [] == es;
    }
  }

  /** And from all of them. */
  lemma CountStep(names: seq<Key>, n: nat, size: nat)
    requires n < |names| && size > 0
    ensures var es, fs, k := Entries(names[..n]), Entries(names[..n + 1]), names[n];
      forall i | 0 <= i < size :: BucketBytes(fs, size, i) == BucketBytes(es, size, i)
        + (if k.name.Some? && k.keyHash % size == i then EltSize(k.name.value) else 0)
  {
    hide Entries, Bucket, BucketBytes, EltSize;
    forall i | 0 <= i < size
      ensures BucketBytes(Entries(names[..n + 1]), size, i) == BucketBytes(Entries(names[..n]), size, i)
        + (if names[n].name.Some? && names[n].keyHash % size == i then EltSize(names[n].name.value) else 0)
    {
      KeyStep(names, n, size, i);
    }
  }

  lemma {:induction false} BytesMonotone(names: seq<Key>, n: nat, size: nat, i: nat)
    requires n <= |names| && 0 <= i < size
    ensures BucketBytes(Entries(names[..n]), size, i) <= BucketBytes(Entries(names), size, i)
    decreases |names| - n
  {
    if n == |names| {
      assert names[..n] == names;
    } else {
      KeyStep(names, n, size, i);
      BytesMonotone(names, n + 1, size, i);
    }
  }

  // ----- The layout in terms of the bytes ---------------------------------------------------

  function Word(bytes: seq<Byte>, o: nat): nat
    requires o + 8 <= |bytes|
  {
    FromLittleEndian(bytes[o..o + 8])
  }

  function Half(bytes: seq<Byte>, o: nat): nat
    requires o + 2 <= |bytes|
  {
    FromLittleEndian(bytes[o..o + 2])
  }

  ghost predicate ElemAt(bytes: seq<Byte>, o: nat, e: Entry) {
    && o + EltSize(e.name) <= |bytes|
    && Word(bytes, o) == e.value
    && Half(bytes, o + 8) == |e.name|
    && bytes[o + 10..o + 10 + |e.name|] == e.name
  }

  ghost predicate Laid(bytes: seq<Byte>, o: nat, es: seq<Entry>) {
    es == [] ||
    (Laid(bytes, o, es[..|es| - 1]) && ElemAt(bytes, o + Size(es[..|es| - 1]), es[|es| - 1]))
  }

  ghost predicate BucketAt(t: Table, b: nat, es: seq<Entry>) {
    if es == [] then b == 0
    else
      && 0 < b && t.base <= b && b % 8 == 0
      && b - t.base + Size(es) + PTR <= |t.bytes|
      && Laid(t.bytes, b - t.base, es)
      && Word(t.bytes, b - t.base + Size(es)) == 0
  }

  /** The table stores exactly `es`: every bucket holds its entries in order up to a NULL value. */
  ghost predicate Represents(t: Table, es: seq<Entry>) {
    && 0 < t.size == |t.buckets|
    && (forall e | e in es :: e.value != 0)
    && forall i | 0 <= i < t.size :: BucketAt(t, t.buckets[i], Bucket(es, t.size, i))
  }

  /** The occupied buckets, terminators included, follow each other without overlap. */
  ghost predicate Disjoint(t: Table, es: seq<Entry>)
    requires t.size == |t.buckets|
  {
    forall i, j | 0 <= i < j < t.size && t.buckets[i] != 0 && t.buckets[j] != 0 ::
      t.buckets[i] + BucketBytes(es, t.size, i) + PTR <= t.buckets[j]
  }

  lemma SubSlice(a: seq<Byte>, b: seq<Byte>, lo: nat, hi: nat, p: nat, q: nat)
    requires lo <= p <= q <= hi <= |a| && hi <= |b|
    requires a[lo..hi] == b[lo..hi]
    ensures a[p..q] == b[p..q]
  {
    forall i | p <= i < q
      ensures a[i] == b[i]
    {
      assert a[i] == a[lo..hi][i - lo] && b[i] == b[lo..hi][i - lo];
    }
  }

  lemma ElemFrame(bytes: seq<Byte>, next: seq<Byte>, p: nat, e: Entry)
    requires ElemAt(bytes, p, e) && p + EltSize(e.name) <= |next|
    requires bytes[p..p + EltSize(e.name)] == next[p..p + EltSize(e.name)]
    ensures ElemAt(next, p, e)
  {
    var q := p + EltSize(e.name);
    SubSlice(bytes, next, p, q, p, p + 8);
    SubSlice(bytes, next, p, q, p + 8, p + 8 + 2);
    SubSlice(bytes, next, p, q, p + 10, p + 10 + |e.name|);
  }

  lemma {:induction false} LaidFrame(bytes: seq<Byte>, next: seq<Byte>, o: nat, es: seq<Entry>)
    requires Laid(bytes, o, es) && o + Size(es) <= |bytes| && o + Size(es) <= |next|
    requires bytes[o..o + Size(es)] == next[o..o + Size(es)]
    ensures Laid(next, o, es)
  {
    hide Laid, Size, EltSize, ElemAt;
    if es == [] {
      EmptyLaid(next, o);
    } else {
      var init, e := es[..|es| - 1], es[|es| - 1];
      var p := o + Size(init);
      LaidParts(bytes, o, es);
      SubSlice(bytes, next, o, o + Size(es), o, p);
      SubSlice(bytes, next, o, o + Size(es), p, o + Size(es));
      LaidFrame(bytes, next, o, init);
      ElemFrame(bytes, next, p, e);
      LaidStep(next, o, init, e);
      assert es == init + [e];
    }
  }

  lemma EmptyLaid(bytes: seq<Byte>, o: int)
    ensures o >= 0 ==> Laid(bytes, o, [])
  {
  }

  lemma LaidParts(bytes: seq<Byte>, o: nat, es: seq<Entry>)
    requires Laid(bytes, o, es) && es != []
    ensures var init, e := es[..|es| - 1], es[|es| - 1];
      Laid(bytes, o, init) && ElemAt(bytes, o + Size(init), e) && Size(es) == Size(init) + EltSize(e.name)
  {
  }

  lemma LaidStep(bytes: seq<Byte>, o: nat, es: seq<Entry>, e: Entry)
    requires Laid(bytes, o, es) && ElemAt(bytes, o + Size(es), e)
    ensures Laid(bytes, o, es + [e])
  {
    assert (es + [e])[..|es|] == es;
  }

  lemma {:induction false} LaidAt(bytes: seq<Byte>, o: nat, es: seq<Entry>, k: nat)
    requires Laid(bytes, o, es) && k < |es|
    ensures ElemAt(bytes, o + Size(es[..k]), es[k])
    ensures Size(es[..k + 1]) == Size(es[..k]) + EltSize(es[k].name)
    ensures Size(es[..k + 1]) <= Size(es)
  {
    hide Laid, Size, EltSize, ElemAt;
    assert es[..k + 1] == es[..k] + [es[k]];
    SizeStep(es[..k], es[k]);
    LaidParts(bytes, o, es);
    if k == |es| - 1 {
      assert es[..k + 1] == es;
    } else {
      var init := es[..|es| - 1];
      LaidAt(bytes, o, init, k);
      assert init[..k] == es[..k] && init[..k + 1] == es[..k + 1];
    }
  }

  // ----- Reference lookup -------------------------------------------------------------------

  /** The value of the first entry with this name, or NULL. */
  function Lookup(es: seq<Entry>, name: Str): nat {
    if es == [] then 0
    else
      var r := Lookup(es[..|es| - 1], name);
      if r != 0 then r
      else if es[|es| - 1].name == name then es[|es| - 1].value
      else 0
  }

  lemma {:induction false} LookupAbsent(es: seq<Entry>, name: Str)
    requires forall e | e in es :: e.name != name
    ensures Lookup(es, name) == 0
  {
    if es != [] {
      LookupAbsent(es[..|es| - 1], name);
    }
  }

  lemma {:induction false} LookupAt(es: seq<Entry>, k: nat, name: Str)
    requires k < |es| && es[k].name == name && es[k].value != 0
    requires forall j | 0 <= j < k :: es[j].name != name
    ensures Lookup(es, name) == es[k].value
  {
    if k == |es| - 1 {
      LookupAbsent(es[..k], name);
    } else {
      LookupAt(es[..|es| - 1], k, name);
    }
  }

  /** For distinct names, the lookup is the map from names to values. */
  lemma LookupIsMap(es: seq<Entry>, name: Str)
    requires forall e | e in es :: e.value != 0
    requires forall i, j | 0 <= i < j < |es| :: es[i].name != es[j].name
    ensures forall i | 0 <= i < |es| && es[i].name == name :: Lookup(es, name) == es[i].value
    ensures Lookup(es, name) == 0 <==> forall e | e in es :: e.name != name
  {
    if k :| 0 <= k < |es| && es[k].name == name {
      LookupAt(es, k, name);
      assert es[k] in es;
    } else {
      LookupAbsent(es, name);
    }
  }

  /** Equal names have equal hashes, so one bucket is enough to answer. */
  lemma {:induction false} LookupInBucket(es: seq<Entry>, size: nat, name: Str, key: nat)
    requires size > 0
    requires forall e | e in es && e.name == name :: e.hash == key
    ensures Lookup(Bucket(es, size, key % size), name) == Lookup(es, name)
  {
    if es != [] {
      var init, e := es[..|es| - 1], es[|es| - 1];
      LookupInBucket(init, size, name, key);
      var b := Bucket(init, size, key % size);
      assert (b + [e])[..|b|] == b;
      assert b + [] == b;
      assert e in es;
    }
  }

  // ----- ngx_hash_find ------------------------------------------------------------------------

  lemma {:induction false} SizeAligned(es: seq<Entry>)
    ensures Size(es) % 8 == 0
  {
    hide EltSize;
    if es != [] {
      SizeAligned(es[..|es| - 1]);
      EltAligned(es[|es| - 1].name);
      BothAligned(Size(es[..|es| - 1]), EltSize(es[|es| - 1].name));
    }
  }

  lemma EltAligned(name: Str)
    ensures EltSize(name) % 8 == 0
  {
  }

  lemma BothAligned(a: nat, b: nat)
    requires a % 8 == 0 && b % 8 == 0
    ensures (a + b) % 8 == 0
  {
  }

  lemma AlignShift(e: nat, len: nat)
    requires e % 8 == 0
    ensures AlignUp(e + 10 + len, PTR) == e + PTR + AlignUp(len + 2, PTR)
  {
  }

  /** The reader's step over an element equals the writer's element size. */
  lemma ReaderStep(b: nat, xs: seq<Entry>, k: nat)
    requires b % 8 == 0 && k < |xs|
    ensures AlignUp(b + Size(xs[..k]) + 10 + |xs[k].name|, PTR) == b + Size(xs[..k + 1])
  {
    hide AlignUp, Size;
    var before := xs[..k];
    SizeAligned(before);
    BothAligned(b, Size(before));
    AlignShift(b + Size(before), |xs[k].name|);
    assert xs[..k + 1] == before + [xs[k]];
    SizeStep(before, xs[k]);
  }

  /** The character loop: does the element's name equal `name`? */
  method SameName(bytes: seq<Byte>, o: nat, len: nat, name: Str) returns (same: bool)
    requires o + len <= |bytes|
    ensures same <==> bytes[o..o + len] == name
  {
    if |name| != len {
      return false;
    }
    for i := 0 to len
      invariant forall j | 0 <= j < i :: name[j] == bytes[o + j]
    {
      if name[i] != bytes[o + i] {
        assert bytes[o..o + len][i] != name[i];
        return false;
      }
    }
    same := true;
  }

  /** The offset of element `k` in its bucket. */
  ghost function Offset(xs: seq<Entry>, k: nat): nat
    requires k <= |xs|
  {
    Size(xs[..k])
  }

  /** What the reader sees at element `k` of a bucket. */
  ghost predicate Sees(t: Table, elt: nat, xs: seq<Entry>, k: nat)
    requires k <= |xs|
  {
    && t.base <= elt && elt - t.base + PTR <= |t.bytes|
    && (Word(t.bytes, elt - t.base) == 0 <==> k == |xs|)
    && (k < |xs| ==>
         && elt - t.base + 10 + |xs[k].name| <= |t.bytes|
         && Word(t.bytes, elt - t.base) == xs[k].value
         && Half(t.bytes, elt - t.base + 8) == |xs[k].name|
         && t.bytes[elt - t.base + 10..elt - t.base + 10 + |xs[k].name|] == xs[k].name)
  }

  lemma SeesEnd(t: Table, b: nat, xs: seq<Entry>)
    requires xs != [] && BucketAt(t, b, xs)
    ensures Sees(t, b + Offset(xs, |xs|), xs, |xs|)
  {
    hide EltSize, Size, Laid, Word, Half;
    assert xs[..|xs|] == xs;
  }

  lemma SeesElem(t: Table, b: nat, xs: seq<Entry>, k: nat)
    requires xs != [] && BucketAt(t, b, xs) && k < |xs| && xs[k].value != 0
    ensures Sees(t, b + Offset(xs, k), xs, k)
  {
    hide EltSize, Size, Laid, Word, Half;
    LaidAt(t.bytes, b - t.base, xs, k);
  }

  lemma BucketCursor(t: Table, b: nat, xs: seq<Entry>, k: nat)
    requires xs != [] && BucketAt(t, b, xs) && k <= |xs|
    requires forall e | e in xs :: e.value != 0
    ensures Sees(t, b + Offset(xs, k), xs, k)
    ensures k == 0 ==> Offset(xs, k) == 0
    ensures k < |xs| ==>
      AlignUp(b + Offset(xs, k) + 10 + |xs[k].name|, PTR) == b + Offset(xs, k + 1)
  {
    hide EltSize, Laid, AlignUp, Word, Half, BucketAt, Sees;
    if k == |xs| {
      SeesEnd(t, b, xs);
    } else {
      BucketAligned(t, b, xs);
      ReaderStep(b, xs, k);
      assert xs[k] in xs;
      SeesElem(t, b, xs, k);
    }
  }

  lemma BucketAligned(t: Table, b: nat, xs: seq<Entry>)
    requires BucketAt(t, b, xs)
    ensures b % 8 == 0
  {
  }

  /** The walk over one bucket, from its address to the NULL value. */
  method Scan(t: Table, b: nat, name: Str, ghost xs: seq<Entry>) returns (v: nat)
    requires xs != [] && BucketAt(t, b, xs)
    requires forall e | e in xs :: e.value != 0
    ensures v == Lookup(xs, name)
  {
    hide EltSize, Size, Laid, Lookup, AlignUp, BucketAt, Word, Half, Offset;
    var elt := b;
    ghost var k := 0;
    BucketCursor(t, b, xs, k);
    while Word(t.bytes, elt - t.base) != 0
      invariant 0 <= k <= |xs| && elt == b + Offset(xs, k)
      invariant Sees(t, elt, xs, k)
      invariant forall j | 0 <= j < k :: xs[j].name != name
      decreases |xs| - k
    {
      var o := elt - t.base;
      var len := Half(t.bytes, o + 8);
      var same := SameName(t.bytes, o + 10, len, name);
      if same {
        LookupAt(xs, k, name);
        return Word(t.bytes, o);
      }
      BucketCursor(t, b, xs, k);
      elt := AlignUp(elt + 10 + len, PTR);
      k := k + 1;
      BucketCursor(t, b, xs, k);
    }
    LookupAbsent(xs, name);
    v := 0;
  }

  method Find(t: Table, key: nat, name: Str, ghost es: seq<Entry>) returns (v: nat)
    requires Represents(t, es)
    ensures v == Lookup(Bucket(es, t.size, key % t.size), name)
    ensures (forall e | e in es && e.name == name :: e.hash == key) ==> v == Lookup(es, name)
  {
    hide Bucket, Lookup, Laid, Size;
    var i := key % t.size;
    ghost var xs := Bucket(es, t.size, i);
    BucketMembers(es, t.size, i);
    if forall e | e in es && e.name == name :: e.hash == key {
      LookupInBucket(es, t.size, name, key);
    }
    assert BucketAt(t, t.buckets[i], xs);
    if t.buckets[i] == 0 {
      LookupAbsent(xs, name);
      return 0;
    }
    v := Scan(t, t.buckets[i], name, xs);
  }

  lemma {:induction false} BucketMembers(es: seq<Entry>, size: nat, i: nat)
    requires size > 0
    ensures forall e | e in Bucket(es, size, i) :: e in es && e.hash % size == i
  {
    if es != [] {
      BucketMembers(es[..|es| - 1], size, i);
    }
  }

  // ----- ngx_hash_init --------------------------------------------------------------------------

  /** The largest size a bucket may be placed with; a 16-bit counter holds it. */
  function PlaceLimit(cfg: Config): (r: nat)
    ensures 61440 <= r < TWO16
  {
    65536 - cfg.cacheLine
  }

  /** `bucket_size` less its terminator, as an unsigned word. */
  function Room(cfg: Config): nat {
    (cfg.bucketSize - PTR) % TWO64
  }

  /** The size the search starts from. */
  function StartSize(cfg: Config, nelts: nat): (r: nat)
    requires Room(cfg) / 16 > 0
    ensures r > 0
  {
    var start := nelts / (Room(cfg) / 16);
    if cfg.maxSize > 10000 && nelts > 0 && cfg.maxSize / nelts < 100 then cfg.maxSize - 1000
    else if start > 0 then start
    else 1
  }

  ghost predicate Roomy(cfg: Config, es: seq<Entry>) {
    forall e | e in es :: EltSize(e.name) + PTR <= cfg.bucketSize
  }

  /** The first size from `size` to `max` in which every bucket fits, or `max`. */
  ghost function FirstFit(es: seq<Entry>, size: nat, max: nat, room: nat): nat
    requires 0 < size && 0 < max
    ensures 0 < FirstFit(es, size, max, room) <= max
    decreases max - size
  {
    if size > max then max
    else if Fits(es, size, room) then size
    else FirstFit(es, size + 1, max, room)
  }

  ghost function ChosenSize(cfg: Config, nelts: nat, es: seq<Entry>): nat
    requires cfg.maxSize > 0 && Room(cfg) / 16 > 0
  {
    FirstFit(es, StartSize(cfg, nelts), cfg.maxSize, Room(cfg))
  }

  /** Everything that makes the build succeed, apart from memory. */
  ghost predicate Buildable(cfg: Config, nelts: nat, es: seq<Entry>) {
    && cfg.maxSize > 0
    && cfg.bucketSize <= PlaceLimit(cfg)
    && Roomy(cfg, es)
    && Room(cfg) / 16 > 0
    && Fits(es, ChosenSize(cfg, nelts, es), PlaceLimit(cfg) - PTR)
  }

  /** When the chosen size keeps every bucket within the configured bucket size, it is the smallest
      one tried; otherwise no size tried does and the bucket size is ignored at the largest. */
  lemma {:induction false} FirstFitIsFirst(es: seq<Entry>, size: nat, max: nat, room: nat)
    requires 0 < size && 0 < max
    ensures var r := FirstFit(es, size, max, room);
      if size <= r && Fits(es, r, room) then forall s | size <= s < r :: !Fits(es, s, room)
      else r == max && forall s | size <= s <= max :: !Fits(es, s, room)
    decreases max - size
  {
    hide BucketBytes;
    if size <= max && !Fits(es, size, room) {
      FirstFitIsFirst(es, size + 1, max, room);
    }
  }

  method CheckNames(cfg: Config, names: seq<Key>) returns (ok: bool)
    ensures ok <==> Roomy(cfg, Entries(names))
  {
    assert names[..0] == [];
    for n := 0 to |names|
      invariant Roomy(cfg, Entries(names[..n]))
    {
      EntriesStep(names, n);
      if names[n].name.None? {
        continue;
      }
      SizeOfStored(names[n]);
      if cfg.bucketSize < EltSize(names[n].name.value) + PTR {
        EntriesMember(names, n);
        return false;
      }
    }
    assert names[..|names|] == names;
    ok := true;
  }

  lemma SizeOfStored(k: Key)
    requires k.name.Some?
    ensures EltSize(OfKey(k)[0].name) == EltSize(k.name.value)
  {
  }

  lemma {:induction false} EntriesMember(names: seq<Key>, n: nat)
    requires n < |names| && names[n].name.Some?
    ensures OfKey(names[n])[0] in Entries(names)
  {
    if n < |names| - 1 {
      EntriesMember(names[..|names| - 1], n);
    }
  }

  /** The counting loops of the size search and of the final measure: `test[i]` counts the bytes of
      bucket `i` in 16 bits, and never wraps because the limit is checked before the store. */
  method Tally(names: seq<Key>, size: nat, init: nat, limit: nat, test: array<nat>) returns (ok: bool)
    requires 0 < size <= test.Length && init <= limit
    requires limit < TWO16 || Entries(names) == []
    modifies test
    ensures ok <==> forall i | 0 <= i < size :: init + BucketBytes(Entries(names), size, i) <= limit
    ensures ok ==> forall i | 0 <= i < size :: test[i] == init + BucketBytes(Entries(names), size, i)
  {
    hide EltSize, Bucket, BucketBytes, Size, Entries;
    for i := 0 to size
      invariant forall j | 0 <= j < i :: test[j] == init
    {
      test[i] := init;
    }
    NoBytes(names, size);
    for n := 0 to |names|
      invariant forall i | 0 <= i < size ::
        test[i] == init + BucketBytes(Entries(names[..n]), size, i) <= limit
    {
      CountStep(names, n, size);
      if names[n].name.None? {
        continue;
      }
      var key := names[n].keyHash % size;
      var len := test[key] + EltSize(names[n].name.value);
      if len > limit {
        BytesMonotone(names, n + 1, size, key);
        return false;
      }
      EntriesMember(names, n);
      test[key] := len % TWO16;
    }
    assert names[..|names|] == names;
    ok := true;
  }

  lemma NoBytes(names: seq<Key>, size: nat)
    requires size > 0
    ensures forall i | 0 <= i < size :: BucketBytes(Entries(names[..0]), size, i) == 0
  {
  }

  /** The size search: the first size that fits, or `max_size` with the bucket size ignored. */
  method ChooseSize(cfg: Config, names: seq<Key>, test: array<nat>) returns (size: nat)
    requires 0 < cfg.maxSize == test.Length
    requires Room(cfg) / 16 > 0 && (Room(cfg) < TWO16 || Entries(names) == [])
    modifies test
    ensures size == ChosenSize(cfg, |names|, Entries(names)) && 0 < size <= cfg.maxSize
  {
    hide Entries, BucketBytes;
    size := StartSize(cfg, |names|);
    while size <= cfg.maxSize
      invariant 0 < size
      invariant FirstFit(Entries(names), size, cfg.maxSize, Room(cfg))
             == ChosenSize(cfg, |names|, Entries(names))
    {
      var ok := Tally(names, size, 0, Room(cfg), test);
      if ok {
        return;
      }
      size := size + 1;
    }
    size := cfg.maxSize;
  }

  /** The aligned bytes reserved for bucket `i`, terminator included. */
  function Cap(es: seq<Entry>, size: nat, i: nat, line: CacheLine): nat
    requires size > 0
  {
    if BucketBytes(es, size, i) == 0 then 0 else AlignUp(PTR + BucketBytes(es, size, i), line)
  }

  /** The bytes reserved for the buckets before `i`. */
  function CapsBefore(es: seq<Entry>, size: nat, i: nat, line: CacheLine): nat
    requires size > 0
  {
    if i == 0 then 0 else CapsBefore(es, size, i - 1, line) + Cap(es, size, i - 1, line)
  }

  lemma CapAligned(es: seq<Entry>, size: nat, i: nat, line: CacheLine)
    requires size > 0
    ensures Cap(es, size, i, line) % 8 == 0
  {
    hide BucketBytes, AlignUp;
    AlignedToLine(PTR + BucketBytes(es, size, i), line);
  }

  lemma {:induction false} CapsAligned(es: seq<Entry>, size: nat, i: nat, line: CacheLine)
    requires size > 0
    ensures CapsBefore(es, size, i, line) % 8 == 0
  {
    hide Cap;
    if i > 0 {
      CapsAligned(es, size, i - 1, line);
      CapAligned(es, size, i - 1, line);
    }
  }

  lemma {:induction false} CapsMonotone(es: seq<Entry>, size: nat, i: nat, j: nat, line: CacheLine)
    requires size > 0 && i <= j
    ensures CapsBefore(es, size, i, line) <= CapsBefore(es, size, j, line)
  {
    hide Cap;
    if i < j {
      CapsMonotone(es, size, i, j - 1, line);
    }
  }

  /** Rounds every occupied bucket up to whole cache lines and adds the sizes up. */
  method AlignSizes(ghost es: seq<Entry>, size: nat, line: CacheLine, test: array<nat>) returns (len: nat)
    requires 0 < size <= test.Length
    requires forall i | 0 <= i < size :: test[i] == PTR + BucketBytes(es, size, i) <= 65536 - line
    modifies test
    ensures len == CapsBefore(es, size, size, line)
    ensures forall i | 0 <= i < size ::
      test[i] == if BucketBytes(es, size, i) == 0 then PTR else Cap(es, size, i, line)
  {
    hide BucketBytes, AlignUp;
    len := 0;
    for i := 0 to size
      invariant len == CapsBefore(es, size, i, line)
      invariant forall j | i <= j < size :: test[j] == PTR + BucketBytes(es, size, j) <= 65536 - line
      invariant forall j | 0 <= j < i ::
        test[j] == if BucketBytes(es, size, j) == 0 then PTR else Cap(es, size, j, line)
    {
      if test[i] == PTR {
        continue;
      }
      test[i] := AlignUp(test[i], line) % TWO16;
      len := len + test[i];
    }
  }

  /** Where the buckets are: one after the other from `elts`, the empty ones NULL. */
  ghost predicate Placed(es: seq<Entry>, size: nat, line: CacheLine, elts: nat, buckets: seq<nat>)
    requires size > 0
  {
    && |buckets| == size
    && forall i | 0 <= i < size ::
         buckets[i] == if Bucket(es, size, i) == [] then 0 else elts + CapsBefore(es, size, i, line)
  }

  method PlaceBuckets(ghost es: seq<Entry>, size: nat, ghost line: CacheLine, test: array<nat>, elts: nat)
    returns (buckets: array<nat>)
    requires 0 < size <= test.Length
    requires forall i | 0 <= i < size ::
      test[i] == if BucketBytes(es, size, i) == 0 then PTR else Cap(es, size, i, line)
    ensures fresh(buckets) && buckets.Length == size && Placed(es, size, line, elts, buckets[..])
  {
    hide Bucket, BucketBytes, Cap, AlignUp, CapsBefore;
    buckets := new nat[size](_ => 0);
    var p := elts;
    CapsStep(es, size, 0, line);
    for i := 0 to size
      invariant p == elts + CapsBefore(es, size, i, line)
      invariant forall j | i <= j < size :: buckets[j] == 0
      invariant forall j | 0 <= j < i ::
        buckets[j] == if Bucket(es, size, j) == [] then 0 else elts + CapsBefore(es, size, j, line)
    {
      OccupiedCap(es, size, i, line);
      CapsStep(es, size, i, line);
      if test[i] == PTR {
        continue;
      }
      buckets[i] := p;
      p := p + test[i];
    }
  }

  lemma CapsStep(es: seq<Entry>, size: nat, i: nat, line: CacheLine)
    requires size > 0
    ensures CapsBefore(es, size, 0, line) == 0
    ensures CapsBefore(es, size, i + 1, line) == CapsBefore(es, size, i, line) + Cap(es, size, i, line)
  {
  }

  lemma OccupiedCap(es: seq<Entry>, size: nat, i: nat, line: CacheLine)
    requires size > 0
    ensures BucketBytes(es, size, i) == 0 <==> Bucket(es, size, i) == []
    ensures BucketBytes(es, size, i) == 0 ==> Cap(es, size, i, line) == 0
    ensures BucketBytes(es, size, i) > 0 ==> Cap(es, size, i, line) >= PTR + BucketBytes(es, size, i)
  {
  }

  /** Occupied buckets with their terminators lie apart from each other inside the chunk. */
  ghost predicate Geometry(es: seq<Entry>, size: nat, base: nat, total: nat, buckets: seq<nat>)
    requires size > 0
  {
    && |buckets| == size
    && (forall i | 0 <= i < size && Bucket(es, size, i) == [] :: buckets[i] == 0)
    && (forall i | 0 <= i < size && Bucket(es, size, i) != [] ::
         && 0 < buckets[i] && base <= buckets[i] && buckets[i] % 8 == 0
         && buckets[i] - base + BucketBytes(es, size, i) + PTR <= total)
    && forall i, j | 0 <= i < j < size && Bucket(es, size, i) != [] && Bucket(es, size, j) != [] ::
         buckets[i] + BucketBytes(es, size, i) + PTR <= buckets[j]
  }

  lemma PlacedGeometry(es: seq<Entry>, size: nat, line: CacheLine, base: nat, elts: nat, buckets: seq<nat>)
    requires size > 0 && 0 < base <= elts && elts % 8 == 0
    requires Placed(es, size, line, elts, buckets)
    ensures Geometry(es, size, base, elts - base + CapsBefore(es, size, size, line), buckets)
  {
    hide Bucket, BucketBytes, CapsBefore, Cap, AlignUp;
    forall i | 0 <= i < size && Bucket(es, size, i) != []
      ensures 0 < buckets[i] && base <= buckets[i] && buckets[i] % 8 == 0
      ensures buckets[i] + BucketBytes(es, size, i) + PTR <= elts + CapsBefore(es, size, size, line)
    {
      CapFollows(es, size, i, size, line);
    }
    forall i, j | 0 <= i < j < size && Bucket(es, size, i) != [] && Bucket(es, size, j) != []
      ensures buckets[i] + BucketBytes(es, size, i) + PTR <= buckets[j]
    {
      CapFollows(es, size, i, j, line);
    }
  }

  lemma CapFollows(es: seq<Entry>, size: nat, i: nat, j: nat, line: CacheLine)
    requires size > 0 && i < j && Bucket(es, size, i) != []
    ensures CapsBefore(es, size, i, line) % 8 == 0
    ensures CapsBefore(es, size, i, line) + BucketBytes(es, size, i) + PTR <= CapsBefore(es, size, j, line)
  {
    hide Bucket, BucketBytes, CapsBefore, Cap, AlignUp;
    CapsAligned(es, size, i, line);
    CapsMonotone(es, size, i + 1, j, line);
    OccupiedCap(es, size, i, line);
    CapsStep(es, size, i, line);
  }

  /** Only the `len` bytes from `o` on may differ. */
  ghost predicate Outside(bytes: seq<Byte>, next: seq<Byte>, o: nat, len: nat) {
    && |bytes| == |next| && o + len <= |bytes|
    && bytes[..o] == next[..o] && bytes[o + len..] == next[o + len..]
  }

  /** Writes one element: the value, the 16-bit length, the lower-cased name. */
  method PutElem(data: array<Byte>, o: nat, name: Str, value: nat, ghost e: Entry)
    requires o + EltSize(name) <= data.Length
    requires |name| < TWO16 && value < TWO64
    requires e.name == LowerStr(name) && e.value == value
    modifies data
    ensures ElemAt(data[..], o, e)
    ensures Outside(old(data[..]), data[..], o, EltSize(e.name))
  {
    hide AlignUp, LittleEndian, FromLittleEndian, EltSize, Outside, Pow256;
    Pow256Values();
    LittleEndianRoundTrip(value, 8);
    LittleEndianRoundTrip(|name|, 2);
    RoomForName(name);
    ghost var was := data[..];
    Copy(data, o, LittleEndian(value, 8));
    ghost var one := data[..];
    Copy(data, o + 8, LittleEndian(|name| % TWO16, 2));
    ghost var two := data[..];
    CopiedOn(was, one, two, o, LittleEndian(value, 8), LittleEndian(|name|, 2));
    Copy(data, o + 10, LowerStr(name));
    SameSize(name, e.name);
    ElemPieces(was, two, data[..], o, LittleEndian(value, 8), LittleEndian(|name|, 2), e.name);
    OutsideGrows(was, data[..], o, 10 + |name|, EltSize(e.name));
  }

  lemma RoomForName(name: Str)
    ensures 10 + |name| <= EltSize(name)
  {
  }

  /** Two copies next to each other. */
  lemma CopiedOn(was: seq<Byte>, one: seq<Byte>, two: seq<Byte>, o: nat, a: Str, b: Str)
    requires o + |a| + |b| <= |was| && one == was[..o] + a + was[o + |a|..]
    requires two == one[..o + |a|] + b + one[o + |a| + |b|..]
    ensures two == was[..o] + (a + b) + was[o + |a + b|..]
  {
  }

  lemma ElemPieces(was: seq<Byte>, two: seq<Byte>, next: seq<Byte>, o: nat, a: Str, b: Str, c: Str)
    requires |a| == 8 && |b| == 2 && o + 10 + |c| <= |was| && two == was[..o] + (a + b) + was[o + 10..]
    requires next == two[..o + 10] + c + two[o + 10 + |c|..]
    ensures next[o..o + 8] == a && next[o + 8..o + 8 + 2] == b && next[o + 10..o + 10 + |c|] == c
    ensures Outside(was, next, o, 10 + |c|)
  {
    CopiedOn(was, two, next, o, a + b, c);
  }

  lemma OutsideGrows(bytes: seq<Byte>, next: seq<Byte>, o: nat, len: nat, more: nat)
    requires Outside(bytes, next, o, len) && len <= more && o + more <= |bytes|
    ensures Outside(bytes, next, o, more)
  {
    SubSlice(bytes, next, o + len, |bytes|, o + more, |bytes|);
  }

  lemma SameSize(a: Str, b: Str)
    requires |a| == |b|
    ensures EltSize(a) == EltSize(b)
  {
  }

  lemma LaidOutside(bytes: seq<Byte>, next: seq<Byte>, o: nat, len: nat, lo: nat, xs: seq<Entry>)
    requires Outside(bytes, next, o, len) && Laid(bytes, lo, xs)
    requires lo + Size(xs) <= o || o + len <= lo <= lo + Size(xs) <= |bytes|
    ensures Laid(next, lo, xs)
  {
    hide Laid, Size;
    if lo + Size(xs) <= o {
      SubSlice(bytes, next, 0, o, lo, lo + Size(xs));
    } else {
      SubSlice(bytes, next, o + len, |bytes|, lo, lo + Size(xs));
    }
    LaidFrame(bytes, next, lo, xs);
  }

  lemma Apart(es: seq<Entry>, size: nat, base: nat, total: nat, buckets: seq<nat>, i: nat, key: nat)
    requires size > 0 && Geometry(es, size, base, total, buckets)
    requires i < size && key < size && i != key
    requires Bucket(es, size, key) != [] && Bucket(es, size, i) != []
    ensures base <= buckets[i] && base <= buckets[key]
    ensures buckets[i] - base + BucketBytes(es, size, i) + PTR <= total
    ensures buckets[i] + BucketBytes(es, size, i) + PTR <= buckets[key]
         || buckets[key] + BucketBytes(es, size, key) + PTR <= buckets[i]
  {
    hide Bucket, BucketBytes;
  }

  /** The cursors of `part`, a prefix of `es`, stay within the space of `es`. */
  ghost predicate Within(part: seq<Entry>, es: seq<Entry>, size: nat)
    requires size > 0
  {
    forall i | 0 <= i < size ::
      && BucketBytes(part, size, i) <= BucketBytes(es, size, i)
      && (Bucket(es, size, i) == [] ==> Bucket(part, size, i) == [])
  }

  lemma PrefixWithin(names: seq<Key>, n: nat, size: nat)
    requires n <= |names| && size > 0
    ensures Within(Entries(names[..n]), Entries(names), size)
  {
    hide Size, EltSize, Entries;
    forall i | 0 <= i < size
      ensures BucketBytes(Entries(names[..n]), size, i) <= BucketBytes(Entries(names), size, i)
      ensures Bucket(Entries(names), size, i) == [] ==> Bucket(Entries(names[..n]), size, i) == []
    {
      BytesMonotone(names, n, size, i);
      NonEmptyBucket(Entries(names[..n]), size, i);
      NonEmptyBucket(Entries(names), size, i);
    }
  }

  lemma NonEmptyBucket(es: seq<Entry>, size: nat, i: nat)
    requires size > 0
    ensures BucketBytes(es, size, i) == 0 <==> Bucket(es, size, i) == []
  {
  }

  lemma LaidGrows(bytes: seq<Byte>, next: seq<Byte>, lo: nat, xs: seq<Entry>, e: Entry)
    requires Laid(bytes, lo, xs)
    requires Outside(bytes, next, lo + Size(xs), EltSize(e.name))
    requires ElemAt(next, lo + Size(xs), e)
    ensures Laid(next, lo, xs + [e])
  {
    hide Laid, Size, ElemAt, EltSize;
    LaidOutside(bytes, next, lo + Size(xs), EltSize(e.name), lo, xs);
    LaidStep(next, lo, xs, e);
  }

  /** Bucket `i` after an element was put into bucket `key`. */
  ghost predicate BucketFilled(bytes: seq<Byte>, base: nat, buckets: seq<nat>, part: seq<Entry>, size: nat, i: nat)
    requires i < size == |buckets|
  {
    Bucket(part, size, i) != [] ==>
      buckets[i] >= base && Laid(bytes, buckets[i] - base, Bucket(part, size, i))
  }

  /** The bucket that grows. */
  lemma FillOwn(part: seq<Entry>, e: Entry, size: nat, base: nat, buckets: seq<nat>,
                bytes: seq<Byte>, next: seq<Byte>, i: nat)
    requires 0 < size == |buckets| && i < size && i == e.hash % size && base <= buckets[i]
    requires BucketFilled(bytes, base, buckets, part, size, i)
    requires Outside(bytes, next, buckets[i] - base + BucketBytes(part, size, i), EltSize(e.name))
    requires ElemAt(next, buckets[i] - base + BucketBytes(part, size, i), e)
    ensures BucketFilled(next, base, buckets, part + [e], size, i)
  {
    hide Bucket, BucketBytes, Size, Laid, ElemAt, EltSize, Outside;
    BucketStep(part, e, size, i);
    BytesAreSize(part, size, i);
    EmptyLaid(bytes, buckets[i] - base);
    LaidGrows(bytes, next, buckets[i] - base, Bucket(part, size, i), e);
  }

  /** A bucket that stays. */
  lemma FillOther(part: seq<Entry>, e: Entry, size: nat, base: nat, buckets: seq<nat>,
                  bytes: seq<Byte>, next: seq<Byte>, o: nat, i: nat)
    requires 0 < size == |buckets| && i < size && i != e.hash % size
    requires BucketFilled(bytes, base, buckets, part, size, i)
    requires Bucket(part, size, i) != [] ==>
      var hi := buckets[i] - base + BucketBytes(part, size, i);
      Outside(bytes, next, o, EltSize(e.name))
      && (hi <= o || (base + o + EltSize(e.name) <= buckets[i] && hi <= |bytes|))
    ensures BucketFilled(next, base, buckets, part + [e], size, i)
  {
    hide Bucket, BucketBytes, Size, Laid, EltSize, Outside;
    BucketStep(part, e, size, i);
    BytesAreSize(part, size, i);
    if Bucket(part, size, i) != [] {
      LaidOutside(bytes, next, o, EltSize(e.name), buckets[i] - base, Bucket(part, size, i));
    }
  }

  lemma GeometrySize(es: seq<Entry>, size: nat, base: nat, total: nat, buckets: seq<nat>)
    requires size > 0 && Geometry(es, size, base, total, buckets)
    ensures |buckets| == size
  {
  }

  lemma WithinAt(part: seq<Entry>, es: seq<Entry>, size: nat, i: nat)
    requires size > 0 && Within(part, es, size) && i < size
    ensures BucketBytes(part, size, i) <= BucketBytes(es, size, i)
    ensures Bucket(es, size, i) == [] ==> Bucket(part, size, i) == []
  {
  }

  lemma FillBucket(es: seq<Entry>, part: seq<Entry>, e: Entry, size: nat, base: nat, buckets: seq<nat>,
                   bytes: seq<Byte>, next: seq<Byte>, key: nat, i: nat)
    requires 0 < size && Geometry(es, size, base, |bytes|, buckets) && i < size && key == e.hash % size
    requires Within(part, es, size) && Within(part + [e], es, size)
    requires BucketFilled(bytes, base, buckets, part, size, i)
    requires Bucket(es, size, key) != [] && base <= buckets[key]
    requires Outside(bytes, next, buckets[key] - base + BucketBytes(part, size, key), EltSize(e.name))
    requires ElemAt(next, buckets[key] - base + BucketBytes(part, size, key), e)
    ensures BucketFilled(next, base, buckets, part + [e], size, i)
  {
    hide Bucket, BucketBytes, BucketFilled, ElemAt, EltSize, Outside, Geometry, Within;
    GeometrySize(es, size, base, |bytes|, buckets);
    WithinAt(part, es, size, i);
    WithinAt(part + [e], es, size, key);
    if i == key {
      FillOwn(part, e, size, base, buckets, bytes, next, i);
    } else {
      BucketStep(part, e, size, key);
      if Bucket(part, size, i) != [] {
        Apart(es, size, base, |bytes|, buckets, i, key);
      }
      FillOther(part, e, size, base, buckets, bytes, next,
                buckets[key] - base + BucketBytes(part, size, key), i);
    }
  }

  lemma BytesAreSize(es: seq<Entry>, size: nat, i: nat)
    requires size > 0
    ensures BucketBytes(es, size, i) == Size(Bucket(es, size, i))
    ensures Bucket(es, size, i) == [] ==> BucketBytes(es, size, i) == 0
  {
  }

  /** `part` has been written; `test` holds the bucket cursors. */
  ghost predicate Filled(bytes: seq<Byte>, base: nat, buckets: seq<nat>, part: seq<Entry>, size: nat, test: seq<nat>)
    requires 0 < size <= |test| && |buckets| == size
  {
    && (forall i | 0 <= i < size :: test[i] == BucketBytes(part, size, i))
    && forall i | 0 <= i < size :: BucketFilled(bytes, base, buckets, part, size, i)
  }

  /** One round of the fill loop, on the contents of the chunk and of the cursors. */
  lemma FillStep(names: seq<Key>, n: nat, size: nat, base: nat, buckets: seq<nat>,
                 bytes: seq<Byte>, next: seq<Byte>, test: seq<nat>, key: nat)
    requires n < |names| && names[n].name.Some?
    requires 0 < size <= |test| && |buckets| == size && key == names[n].keyHash % size
    requires Geometry(Entries(names), size, base, |bytes|, buckets)
    requires Filled(bytes, base, buckets, Entries(names[..n]), size, test)
    requires Bucket(Entries(names), size, key) != [] && base <= buckets[key]
    requires Outside(bytes, next, buckets[key] - base + test[key], EltSize(names[n].name.value))
    requires ElemAt(next, buckets[key] - base + test[key], OfKey(names[n])[0])
    ensures Filled(next, base, buckets, Entries(names[..n + 1]), size,
                   test[key := test[key] + EltSize(names[n].name.value)])
  {
    hide Bucket, BucketBytes, EltSize, ElemAt, Outside, BucketFilled, Geometry, Within, Entries, OfKey;
    PresentKey(names, n);
    var part, e := Entries(names[..n]), OfKey(names[n])[0];
    PrefixWithin(names, n, size);
    PrefixWithin(names, n + 1, size);
    CursorStep(part, e, size, test, key);
    forall i | 0 <= i < size
      ensures BucketFilled(next, base, buckets, part + [e], size, i)
    {
      FillBucket(Entries(names), part, e, size, base, buckets, bytes, next, key, i);
    }
  }

  lemma PresentKey(names: seq<Key>, n: nat)
    requires n < |names| && names[n].name.Some?
    ensures |OfKey(names[n])| == 1
    ensures Entries(names[..n + 1]) == Entries(names[..n]) + [OfKey(names[n])[0]]
    ensures OfKey(names[n])[0].hash == names[n].keyHash
    ensures EltSize(OfKey(names[n])[0].name) == EltSize(names[n].name.value)
  {
    EntriesStep(names, n);
    SameSize(names[n].name.value, OfKey(names[n])[0].name);
  }

  lemma CursorStep(part: seq<Entry>, e: Entry, size: nat, test: seq<nat>, key: nat)
    requires 0 < size <= |test| && key == e.hash % size
    requires forall i | 0 <= i < size :: test[i] == BucketBytes(part, size, i)
    ensures forall i | 0 <= i < size ::
      test[key := test[key] + EltSize(e.name)][i] == BucketBytes(part + [e], size, i)
  {
    hide Bucket, BucketBytes, EltSize;
    forall i | 0 <= i < size
      ensures test[key := test[key] + EltSize(e.name)][i] == BucketBytes(part + [e], size, i)
    {
      BucketStep(part, e, size, i);
    }
  }

  /** One present key goes to the cursor of its bucket. */
  method PutKey(names: seq<Key>, n: nat, size: nat, base: nat, buckets: seq<nat>, data: array<Byte>, test: array<nat>)
    requires n < |names| && names[n].name.Some? && |names[n].name.value| < TWO16 && names[n].value < TWO64
    requires 0 < size <= test.Length && |buckets| == size
    requires Geometry(Entries(names), size, base, data.Length, buckets)
    requires forall i | 0 <= i < size :: BucketBytes(Entries(names), size, i) < TWO16
    requires Filled(data[..], base, buckets, Entries(names[..n]), size, test[..])
    modifies data, test
    ensures Filled(data[..], base, buckets, Entries(names[..n + 1]), size, test[..])
  {
    hide Entries, Bucket, BucketBytes, EltSize, ElemAt, Outside, BucketFilled, Geometry;
    var name, key := names[n].name.value, names[n].keyHash % size;
    FillSpace(names, n, size, base, data.Length, buckets, key);
    ghost var was, cursors := data[..], test[..];
    SameSize(name, OfKey(names[n])[0].name);
    PutElem(data, buckets[key] - base + test[key], name, names[n].value, OfKey(names[n])[0]);
    FillStep(names, n, size, base, buckets, was, data[..], cursors, key);
    test[key] := (test[key] + EltSize(name)) % TWO16;
    assert test[..] == cursors[key := cursors[key] + EltSize(name)];
  }

  /** The fill loop. */
  method Fill(names: seq<Key>, size: nat, base: nat, buckets: seq<nat>, data: array<Byte>, test: array<nat>)
    requires 0 < size <= test.Length && |buckets| == size
    requires Geometry(Entries(names), size, base, data.Length, buckets)
    requires forall k | k in names && k.name.Some? :: |k.name.value| < TWO16 && k.value < TWO64
    requires forall i | 0 <= i < size :: BucketBytes(Entries(names), size, i) < TWO16
    modifies data, test
    ensures Filled(data[..], base, buckets, Entries(names), size, test[..])
  {
    hide Entries, BucketBytes, Filled, Geometry;
    for i := 0 to size
      invariant forall j | 0 <= j < i :: test[j] == 0
    {
      test[i] := 0;
    }
    NothingFilled(names, data[..], base, buckets, size, test[..]);
    for n := 0 to |names|
      invariant Filled(data[..], base, buckets, Entries(names[..n]), size, test[..])
    {
      if names[n].name.None? {
        AbsentKey(names, n);
      } else {
        PutKey(names, n, size, base, buckets, data, test);
      }
    }
    assert names[..|names|] == names;
  }

  lemma AbsentKey(names: seq<Key>, n: nat)
    requires n < |names| && names[n].name.None?
    ensures Entries(names[..n + 1]) == Entries(names[..n])
  {
    EntriesStep(names, n);
  }

  lemma NothingFilled(names: seq<Key>, bytes: seq<Byte>, base: nat, buckets: seq<nat>, size: nat, test: seq<nat>)
    requires 0 < size <= |test| && |buckets| == size
    requires forall i | 0 <= i < size :: test[i] == 0
    ensures Filled(bytes, base, buckets, Entries(names[..0]), size, test)
  {
  }

  /** The space that the next element needs is there. */
  lemma FillSpace(names: seq<Key>, n: nat, size: nat, base: nat, total: nat, buckets: seq<nat>, key: nat)
    requires n < |names| && names[n].name.Some?
    requires 0 < size && Geometry(Entries(names), size, base, total, buckets)
    requires key == names[n].keyHash % size
    ensures Bucket(Entries(names), size, key) != [] && base <= buckets[key]
    ensures var end := BucketBytes(Entries(names[..n]), size, key) + EltSize(names[n].name.value);
      end <= BucketBytes(Entries(names), size, key) && buckets[key] - base + end <= total
  {
    hide Bucket, BucketBytes, EltSize, Entries, OfKey, Geometry;
    PresentKey(names, n);
    PrefixWithin(names, n + 1, size);
    var part, e := Entries(names[..n]), OfKey(names[n])[0];
    BucketStep(part, e, size, key);
    Inside(Entries(names), size, base, total, buckets, key);
  }

  ghost predicate Terminated(es: seq<Entry>, size: nat, base: nat, buckets: seq<nat>, bytes: seq<Byte>, i: nat)
    requires i < size == |buckets|
  {
    Bucket(es, size, i) != [] ==>
      var o := buckets[i] - base + BucketBytes(es, size, i);
      0 <= o && o + PTR <= |bytes| && Word(bytes, o) == 0
  }

  /** Writing the NULL value of bucket `m` keeps every bucket and every other terminator. */
  lemma TerminateBucket(es: seq<Entry>, size: nat, base: nat, buckets: seq<nat>,
                        bytes: seq<Byte>, next: seq<Byte>, m: nat, i: nat)
    requires 0 < size == |buckets| && m < size && i < size
    requires Geometry(es, size, base, |bytes|, buckets) && Bucket(es, size, m) != []
    requires Outside(bytes, next, buckets[m] - base + BucketBytes(es, size, m), PTR)
    requires BucketFilled(bytes, base, buckets, es, size, i)
    ensures BucketFilled(next, base, buckets, es, size, i)
    ensures Bucket(es, size, i) == [] ==> Terminated(es, size, base, buckets, next, i)
    ensures i != m && Terminated(es, size, base, buckets, bytes, i)
        ==> Terminated(es, size, base, buckets, next, i)
  {
    hide Bucket, BucketBytes, Geometry, Outside, Word, BucketFilled;
    if Bucket(es, size, i) == [] {
      EmptyTerminated(es, size, base, buckets, next, i);
    } else {
      Inside(es, size, base, |bytes|, buckets, i);
      Inside(es, size, base, |bytes|, buckets, m);
      var o := buckets[m] - base + BucketBytes(es, size, m);
      if i != m {
        Apart(es, size, base, |bytes|, buckets, i, m);
        WordOutside(bytes, next, o, PTR, buckets[i] - base + BucketBytes(es, size, i));
      }
      KeptBucket(es, size, base, buckets, bytes, next, o, i);
    }
  }

  lemma Inside(es: seq<Entry>, size: nat, base: nat, total: nat, buckets: seq<nat>, i: nat)
    requires size > 0 && Geometry(es, size, base, total, buckets)
    requires i < size && Bucket(es, size, i) != []
    ensures 0 < buckets[i] && base <= buckets[i] && buckets[i] % 8 == 0
    ensures buckets[i] - base + BucketBytes(es, size, i) + PTR <= total
  {
    hide Bucket, BucketBytes;
  }

  lemma KeptBucket(es: seq<Entry>, size: nat, base: nat, buckets: seq<nat>,
                   bytes: seq<Byte>, next: seq<Byte>, o: nat, i: nat)
    requires i < size == |buckets| && base <= buckets[i] && Bucket(es, size, i) != []
    requires Outside(bytes, next, o, PTR)
    requires buckets[i] - base + BucketBytes(es, size, i) <= |bytes|
    requires buckets[i] - base + BucketBytes(es, size, i) <= o || base + o + PTR <= buckets[i]
    requires BucketFilled(bytes, base, buckets, es, size, i)
    ensures BucketFilled(next, base, buckets, es, size, i)
  {
    hide Bucket, BucketBytes, Size, Laid, Outside;
    BytesAreSize(es, size, i);
    LaidOutside(bytes, next, o, PTR, buckets[i] - base, Bucket(es, size, i));
  }

  lemma WordOutside(bytes: seq<Byte>, next: seq<Byte>, o: nat, len: nat, p: nat)
    requires Outside(bytes, next, o, len) && p + 8 <= |bytes|
    requires p + 8 <= o || o + len <= p
    ensures |next| == |bytes| && Word(next, p) == Word(bytes, p)
  {
    hide FromLittleEndian;
    if p + 8 <= o {
      SubSlice(bytes, next, 0, o, p, p + 8);
    } else {
      SubSlice(bytes, next, o + len, |bytes|, p, p + 8);
    }
  }

  /** The last loop: a NULL value after the elements of every occupied bucket. */
  method Terminate(ghost es: seq<Entry>, size: nat, base: nat, buckets: seq<nat>, data: array<Byte>, test: array<nat>)
    requires 0 < size <= test.Length && |buckets| == size
    requires Geometry(es, size, base, data.Length, buckets)
    requires Filled(data[..], base, buckets, es, size, test[..])
    modifies data
    ensures forall i | 0 <= i < size :: BucketFilled(data[..], base, buckets, es, size, i)
    ensures forall i | 0 <= i < size :: Terminated(es, size, base, buckets, data[..], i)
  {
    hide Bucket, BucketBytes, BucketFilled, Outside, Terminated, Word;
    for m := 0 to size
      invariant forall i | 0 <= i < size :: BucketFilled(data[..], base, buckets, es, size, i)
      invariant forall i | 0 <= i < m :: Terminated(es, size, base, buckets, data[..], i)
    {
      if buckets[m] == 0 {
        EmptyTerminated(es, size, base, buckets, data[..], m);
        continue;
      }
      ghost var was := data[..];
      PutNull(data, buckets[m] - base + test[m]);
      forall i | 0 <= i < size
        ensures BucketFilled(data[..], base, buckets, es, size, i)
        ensures i <= m ==> Terminated(es, size, base, buckets, data[..], i)
      {
        TerminateBucket(es, size, base, buckets, was, data[..], m, i);
        if i == m {
          NullTerminates(es, size, base, buckets, data[..], i);
        }
      }
    }
  }

  method PutNull(data: array<Byte>, o: nat)
    requires o + PTR <= data.Length
    modifies data
    ensures Word(data[..], o) == 0
    ensures Outside(old(data[..]), data[..], o, PTR)
  {
    hide LittleEndian, FromLittleEndian;
    Pow256Values();
    LittleEndianRoundTrip(0, 8);
    Copy(data, o, LittleEndian(0, 8));
    assert data[..][o..o + 8] == LittleEndian(0, 8);
  }

  lemma EmptyTerminated(es: seq<Entry>, size: nat, base: nat, buckets: seq<nat>, bytes: seq<Byte>, i: nat)
    requires i < size == |buckets| && Bucket(es, size, i) == []
    ensures Terminated(es, size, base, buckets, bytes, i)
    ensures BucketFilled(bytes, base, buckets, es, size, i)
  {
  }

  lemma NullTerminates(es: seq<Entry>, size: nat, base: nat, buckets: seq<nat>, bytes: seq<Byte>, i: nat)
    requires i < size == |buckets|
    requires buckets[i] - base + BucketBytes(es, size, i) >= 0
    requires buckets[i] - base + BucketBytes(es, size, i) + PTR <= |bytes|
    requires Word(bytes, buckets[i] - base + BucketBytes(es, size, i)) == 0
    ensures Terminated(es, size, base, buckets, bytes, i)
  {
  }

  /** From the two byte loops to the table. */
  lemma TableIsBuilt(es: seq<Entry>, t: Table)
    requires 0 < t.size == |t.buckets| && (forall e | e in es :: e.value != 0)
    requires Geometry(es, t.size, t.base, |t.bytes|, t.buckets)
    requires forall i | 0 <= i < t.size :: BucketFilled(t.bytes, t.base, t.buckets, es, t.size, i)
    requires forall i | 0 <= i < t.size :: Terminated(es, t.size, t.base, t.buckets, t.bytes, i)
    ensures Represents(t, es) && Disjoint(t, es)
  {
    hide Bucket, BucketBytes, BucketFilled, Terminated, BucketAt;
    forall i | 0 <= i < t.size
      ensures BucketAt(t, t.buckets[i], Bucket(es, t.size, i))
    {
      BucketIsBuilt(es, t, i);
    }
  }

  lemma BucketIsBuilt(es: seq<Entry>, t: Table, i: nat)
    requires 0 < t.size == |t.buckets| && i < t.size
    requires Geometry(es, t.size, t.base, |t.bytes|, t.buckets)
    requires BucketFilled(t.bytes, t.base, t.buckets, es, t.size, i)
    requires Terminated(es, t.size, t.base, t.buckets, t.bytes, i)
    ensures BucketAt(t, t.buckets[i], Bucket(es, t.size, i))
  {
    hide Bucket, BucketBytes, Laid, Word, Size, Geometry;
    BytesAreSize(es, t.size, i);
    if Bucket(es, t.size, i) == [] {
      EmptyIsNull(es, t.size, t.base, |t.bytes|, t.buckets, i);
    } else {
      Inside(es, t.size, t.base, |t.bytes|, t.buckets, i);
    }
  }

  lemma EmptyIsNull(es: seq<Entry>, size: nat, base: nat, total: nat, buckets: seq<nat>, i: nat)
    requires size > 0 && Geometry(es, size, base, total, buckets)
    requires i < size && Bucket(es, size, i) == []
    ensures buckets[i] == 0
  {
    hide Bucket, BucketBytes;
  }

  lemma {:induction false} StoredValues(names: seq<Key>)
    requires forall k | k in names && k.name.Some? :: 0 < k.value
    ensures forall e | e in Entries(names) :: e.value != 0
  {
    if names != [] {
      StoredValues(names[..|names| - 1]);
    }
  }

  lemma RoomyRoom(cfg: Config, es: seq<Entry>)
    requires Roomy(cfg, es) && cfg.bucketSize < TWO64
    ensures es != [] ==> 0 < Room(cfg) / 16
  {
    if es != [] {
      var e := es[0];
      assert e in es;
    }
  }

  /** Every name fits a bucket, so its length fits 16 bits and the buckets have room. */
  lemma RoomyNames(cfg: Config, names: seq<Key>)
    requires Roomy(cfg, Entries(names)) && cfg.bucketSize <= PlaceLimit(cfg)
    ensures forall k | k in names && k.name.Some? :: |k.name.value| < TWO16
    ensures Entries(names) != [] ==> 0 < Room(cfg) / 16 && Room(cfg) < TWO16
  {
    forall k | k in names && k.name.Some?
      ensures |k.name.value| < TWO16
    {
      var n :| 0 <= n < |names| && names[n] == k;
      EntriesMember(names, n);
    }
    if Entries(names) != [] {
      var e := Entries(names)[0];
      assert EltSize(e.name) >= 16;
    }
  }

  lemma CapacityFits(cfg: Config, names: seq<Key>, size: nat)
    requires size > 0 && Fits(Entries(names), size, PlaceLimit(cfg) - PTR)
    ensures forall i | 0 <= i < size ::
      BucketBytes(Entries(names), size, i) < TWO16
      && PTR + BucketBytes(Entries(names), size, i) <= 65536 - cfg.cacheLine
  {
    hide BucketBytes;
  }

  /** What a build asks of sizes and names: a bucket takes every name and its terminator, and with the chosen number
      of buckets each has at most 65536 bytes less a cache line. Less than eight bytes do for no names. */
  lemma BuildableIs(cfg: Config, nelts: nat, es: seq<Entry>)
    requires cfg.bucketSize <= 65536
    ensures Buildable(cfg, nelts, es) <==>
      && 0 < cfg.maxSize && cfg.bucketSize <= 65536 - cfg.cacheLine && (cfg.bucketSize < 8 || 24 <= cfg.bucketSize)
      && (forall e | e in es :: EltSize(e.name) + 8 <= cfg.bucketSize)
      && forall i | 0 <= i < ChosenSize(cfg, nelts, es) ::
           8 + BucketBytes(es, ChosenSize(cfg, nelts, es), i) <= 65536 - cfg.cacheLine
  {
    hide BucketBytes, FirstFit, EltSize;
    RoomIs(cfg);
  }

  lemma RoomIs(cfg: Config)
    requires cfg.bucketSize <= 65536
    ensures if cfg.bucketSize < 8 then Room(cfg) / 16 > 0 else Room(cfg) == cfg.bucketSize - 8
  {
  }

  /** Where the search for the number of buckets begins, and that it stops at the first one that fits. */
  lemma ChosenIs(cfg: Config, nelts: nat, es: seq<Entry>)
    requires cfg.maxSize > 0 && 24 <= cfg.bucketSize < 0x1_0000_0000_0000_0000
    ensures var start := nelts / ((cfg.bucketSize - 8) / 16);
      StartSize(cfg, nelts)
      == if cfg.maxSize > 10000 && nelts > 0 && cfg.maxSize / nelts < 100 then cfg.maxSize - 1000
         else if start > 0 then start else 1
    ensures ChosenSize(cfg, nelts, es) == FirstFit(es, StartSize(cfg, nelts), cfg.maxSize, cfg.bucketSize - 8)
  {
    hide FirstFit;
  }

  /** The division by the number of elements that a bucket takes is reached with none that fits: there is no
      present key, and the bucket size is that of a terminator and less than one element. */
  ghost predicate DividesByZero(cfg: Config, es: seq<Entry>, al: Allocs) {
    && cfg.maxSize > 0 && cfg.bucketSize <= PlaceLimit(cfg) && Roomy(cfg, es) && al.test
    && Room(cfg) / 16 == 0
  }

  lemma DividesByZeroIff(cfg: Config, es: seq<Entry>, al: Allocs)
    ensures DividesByZero(cfg, es, al) <==>
      cfg.maxSize > 0 && al.test && es == [] && PTR <= cfg.bucketSize < PTR + 16
  {
    if es != [] {
      assert es[0] in es && EltSize(es[0].name) >= 16;
    }
  }

  /** `ngx_hash_init`: builds exactly when the checks of sizes and the allocations allow it, and what
      it builds stores exactly the present keys, in occupied buckets that do not overlap. `trap` is the division
      by zero. */
  method Init(cfg: Config, names: seq<Key>, al: Allocs, chunk: nat) returns (r: Option<Table>, trap: bool)
    requires cfg.maxSize < TWO64 && cfg.bucketSize < TWO64 && 0 < chunk
    requires forall k | k in names && k.name.Some? :: 0 < k.value < TWO64
    ensures trap <==> DividesByZero(cfg, Entries(names), al)
    ensures r.Some? ==> al == Allocs(true, true, true) && r.value.base == chunk
    ensures r.Some? <==> Buildable(cfg, |names|, Entries(names)) && al == Allocs(true, true, true)
    ensures r.Some? ==>
      && r.value.size == ChosenSize(cfg, |names|, Entries(names))
      && Represents(r.value, Entries(names))
      && Disjoint(r.value, Entries(names))
  {
    hide Entries, BucketBytes, Bucket, EltSize, Roomy, ChosenSize, Placed, CapsBefore, Filled, BucketFilled,
         Terminated, Geometry, Represents, Disjoint;
    if cfg.maxSize == 0 || cfg.bucketSize > PlaceLimit(cfg) {
      return None, false;
    }
    var ok := CheckNames(cfg, names);
    if !ok || !al.test {
      return None, false;
    }
    RoomyNames(cfg, names);
    if Room(cfg) / 16 == 0 {
      return None, true;
    }
    var test := new nat[cfg.maxSize];
    var size := ChooseSize(cfg, names, test);
    ok := Tally(names, size, PTR, PlaceLimit(cfg), test);
    if !ok || !al.buckets || !al.elts {
      return None, false;
    }
    r := Lay(cfg, names, size, chunk, test);
    trap := false;
  }

  /** The part of `ngx_hash_init` after the last check: places the buckets and writes them. */
  method Lay(cfg: Config, names: seq<Key>, size: nat, chunk: nat, test: array<nat>) returns (r: Option<Table>)
    requires 0 < chunk && 0 < size <= test.Length
    requires forall k | k in names && k.name.Some? :: 0 < k.value < TWO64 && |k.name.value| < TWO16
    requires Fits(Entries(names), size, PlaceLimit(cfg) - PTR)
    requires forall i | 0 <= i < size :: test[i] == PTR + BucketBytes(Entries(names), size, i)
    modifies test
    ensures r.Some? && r.value.size == size && r.value.base == chunk
    ensures Represents(r.value, Entries(names)) && Disjoint(r.value, Entries(names))
  {
    hide Entries, BucketBytes, Bucket, EltSize, Placed, CapsBefore, Filled, BucketFilled,
         Terminated, Geometry, Represents, Disjoint;
    ghost var es := Entries(names);
    CapacityFits(cfg, names, size);
    var line := cfg.cacheLine;
    var len := AlignSizes(es, size, line, test);
    var elts := AlignUp(chunk, line);
    AlignedToLine(chunk, line);
    var buckets := PlaceBuckets(es, size, line, test, elts);
    var data := new Byte[len + line];
    PlacedGeometry(es, size, line, chunk, elts, buckets[..]);
    GeometryGrows(es, size, chunk, elts - chunk + len, data.Length, buckets[..]);
    Fill(names, size, chunk, buckets[..], data, test);
    Terminate(es, size, chunk, buckets[..], data, test);
    StoredValues(names);
    var t := Table(buckets[..], size, chunk, data[..]);
    TableIsBuilt(es, t);
    r := Some(t);
  }

  lemma GeometryGrows(es: seq<Entry>, size: nat, base: nat, total: nat, more: nat, buckets: seq<nat>)
    requires size > 0 && Geometry(es, size, base, total, buckets) && total <= more
    ensures Geometry(es, size, base, more, buckets)
  {
    hide Bucket, BucketBytes;
  }
}
