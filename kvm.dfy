/**
 * The KVM store of bench_all.cpp (lines 38-117): one byte region holding,
 * in this order, the bloom bitmap (BLOOM_SIZE bits), an array of
 * BUCKET_COUNT little-endian uint32 chain heads, and the records, appended
 * at write_pos.  A record is a 12-byte header (klen, vlen, next) followed by
 * the key and the value bytes, padded to a multiple of 8.  `next` is the
 * offset of the previous head of the record's bucket; offsets below
 * DATA_OFF (the zeroed heads are 0) end a chain.
 *
 * The ghost sequence `recs` lists every stored record, oldest first; the
 * layout predicate ties every byte range of the region to it.
 */
module KvmStore {
  import opened Keys
  import opened Wrappers
  import opened LittleEndian
  import opened Arena
  import Hashes
  import Bloom

  const BUCKET_COUNT: nat := 256 * 1024
  const BLOOM_SIZE: nat := 0x100_0000     // 1 << 24 bits
  const BLOOM_OFF: nat := 0
  const BUCKET_OFF: nat := BLOOM_SIZE / 8
  const DATA_OFF: nat := BUCKET_OFF + BUCKET_COUNT * 4
  /** sizeof(Entry): three uint32_t before the flexible data member. */
  const HEADER_SIZE: nat := 12
  const U32: nat := 0x1_0000_0000

  datatype Rec = Rec(key: Key, value: Value)

  /** `(uint32_t)strlen(s)` bytes of s: what kvm_put and kvm_get use of a C string argument. */
  function Str32(s: seq<byte>): (r: seq<byte>)
    ensures |r| < U32 && |r| <= |CStr(s)| && r == CStr(s)[..|r|] && NulFree(r)
    ensures |CStr(s)| < U32 ==> r == CStr(s)
  {
    CStr(s)[..|CStr(s)| % U32]
  }

  /** `(sizeof(Entry) + kl + vl + 7) & ~7` */
  function RecSize(r: Rec): (n: nat)
    ensures n % 8 == 0 && HEADER_SIZE + |r.key| + |r.value| <= n < HEADER_SIZE + |r.key| + |r.value| + 8
  {
    AlignUp(HEADER_SIZE + |r.key| + |r.value|)
  }

  /** `fnv1a(key, kl) % BUCKET_COUNT` */
  function BucketOf(k: Key): (b: nat)
    ensures b < BUCKET_COUNT
  {
    Hashes.Fnv1a(k) as int % BUCKET_COUNT
  }

  /** write_pos once the records rs are stored. */
  function Ends(rs: seq<Rec>): (e: nat)
    ensures e >= DATA_OFF && e % 8 == 0
    decreases |rs|
  {
    if rs == [] then DATA_OFF else Ends(rs[..|rs| - 1]) + RecSize(rs[|rs| - 1])
  }

  /** The newest record of bucket b. */
  function Last(rs: seq<Rec>, b: nat): (r: Option<nat>)
    ensures r.Some? ==> r.value < |rs| && BucketOf(rs[r.value].key) == b
    decreases |rs|
  {
    if rs == [] then None
    else if BucketOf(rs[|rs| - 1].key) == b then Some(|rs| - 1)
    else Last(rs[..|rs| - 1], b)
  }

  /** No record after the newest one of bucket b, and none at all when there is none, is in bucket b. */
  lemma {:induction false} LastIsNewest(rs: seq<Rec>, b: nat, i: nat)
    requires i < |rs| && BucketOf(rs[i].key) == b
    ensures Last(rs, b).Some? && i <= Last(rs, b).value
    decreases |rs|
  {
    if BucketOf(rs[|rs| - 1].key) != b {
      LastIsNewest(rs[..|rs| - 1], b, i);
    }
  }

  /** The chain head of bucket b: the offset of its newest record, or 0. */
  function Head(rs: seq<Rec>, b: nat): (h: nat)
    ensures h == 0 <==> Last(rs, b).None?
    ensures h != 0 ==> DATA_OFF <= h && h % 8 == 0
  {
    match Last(rs, b)
    case None => 0
    case Some(j) => Ends(rs[..j])
  }

  /** What a record's bytes are, before the padding. */
  function Image(r: Rec, next: nat): (s: seq<byte>)
    ensures |s| == HEADER_SIZE + |r.key| + |r.value|
  {
    Le(|r.key|, 4) + Le(|r.value|, 4) + Le(next, 4) + r.key + r.value
  }

  /** The key/value map a read observes: the newest record of each key. */
  function RecMap(rs: seq<Rec>): map<Key, Value>
    decreases |rs|
  {
    if rs == [] then map[] else RecMap(rs[..|rs| - 1])[rs[|rs| - 1].key := rs[|rs| - 1].value]
  }

  /** s written over m from offset at on: a memcpy into the region. */
  function Splice(m: seq<byte>, at: nat, s: seq<byte>): (r: seq<byte>)
    requires at + |s| <= |m|
    ensures |r| == |m|
  {
    m[..at] + s + m[at + |s|..]
  }

  // ----- the bloom bytes -----

  /** The first BLOOM_SIZE / 8 bytes of the region, as the bitmap bloom_add and bloom_maybe address. */
  function BloomBits(m: seq<byte>): (r: seq<bv8>)
    requires |m| >= BUCKET_OFF
    ensures |r| == BUCKET_OFF
  {
    seq(BUCKET_OFF, i requires 0 <= i < BUCKET_OFF => ToBv(m[i]))
  }

  /** `h % BLOOM_SIZE` */
  function BloomPos(h: bv32): (p: nat)
    ensures p < BLOOM_SIZE && p / 8 < BUCKET_OFF
  {
    var p := h as int % BLOOM_SIZE;
    assert p / 8 < 0x20_0000;
    p
  }

  /** `(h % BLOOM_SIZE) >> 3`: the bloom byte of h. */
  function ByteIx(h: bv32): (i: nat)
    ensures i < BUCKET_OFF
  {
    BloomPos(h) / 8
  }

  /** `1 << (h % 8)`; h % 8 is also the bit of BloomPos(h), as BLOOM_SIZE is a multiple of 8. */
  function BitOf(h: bv32): bv8
  {
    Bloom.Mask(h as int)
  }

  function ToBv(b: byte): bv8 { b as int as bv8 }

  function FromBv(b: bv8): byte { b as int as byte }

  /** `bloom[(h % BLOOM_SIZE) >> 3] |= 1 << (h % 8)` */
  function SetBit(m: seq<byte>, h: bv32): (r: seq<byte>)
    requires |m| >= BUCKET_OFF
    ensures |r| == |m|
  {
    m[ByteIx(h) := FromBv(ToBv(m[ByteIx(h)]) | BitOf(h))]
  }

  /** `bloom[(h % BLOOM_SIZE) >> 3] & (1 << (h % 8))` is nonzero */
  predicate BitSet(m: seq<byte>, h: bv32)
    requires |m| >= BUCKET_OFF
  {
    ToBv(m[ByteIx(h)]) & BitOf(h) != 0
  }

  /** bloom_add */
  function BloomAdd(m: seq<byte>, k: Key): (r: seq<byte>)
    requires |m| >= BUCKET_OFF
    ensures |r| == |m|
  {
    SetBit(SetBit(SetBit(m, Hashes.Fnv1a(k)), Hashes.Hash2(k)), Hashes.Hash3(k))
  }

  /** bloom_maybe */
  predicate BloomMaybe(m: seq<byte>, k: Key)
    requires |m| >= BUCKET_OFF
  {
    BitSet(m, Hashes.Fnv1a(k)) && BitSet(m, Hashes.Hash2(k)) && BitSet(m, Hashes.Hash3(k))
  }

  // ----- the layout -----

  /** The image of e, linked to next, sits at offset o of the data area D. */
  ghost predicate StoredAs(D: seq<byte>, o: nat, e: Rec, next: nat)
  {
    |e.key| < U32 && |e.value| < U32 &&
    o + |Image(e, next)| <= |D| && D[o..o + |Image(e, next)|] == Image(e, next)
  }

  /** Record j of rs sits in the data area D at its offset, with its chain link. */
  ghost predicate Stored(D: seq<byte>, rs: seq<Rec>, j: nat)
    requires j < |rs|
  {
    StoredAs(D, Ends(rs[..j]) - DATA_OFF, rs[j], Head(rs[..j], BucketOf(rs[j].key)))
  }

  /** The data area [DATA_OFF, write_pos) holds the records of rs, one after the other. */
  ghost predicate Records(D: seq<byte>, rs: seq<Rec>)
  {
    |D| == Ends(rs) - DATA_OFF && forall j :: 0 <= j < |rs| ==> Stored(D, rs, j)
  }

  /** The bucket area [BUCKET_OFF, DATA_OFF) holds each bucket's chain head. */
  ghost predicate Slots(S: seq<byte>, rs: seq<Rec>)
  {
    |S| == 4 * BUCKET_COUNT &&
    forall b :: 0 <= b < BUCKET_COUNT ==> FromLe(S[4 * b..4 * b + 4]) == Head(rs, b)
  }

  /**
   * The whole region: write_pos ends the last record and lies within the
   * region, every stored key passes the bloom filter, the chain heads and
   * the records are as rs says.
   */
  ghost predicate Laid(m: seq<byte>, wp: nat, rs: seq<Rec>)
  {
    |m| == POOL_SIZE && wp == Ends(rs) && wp <= |m| &&
    Bloom.BloomHolds(BloomBits(m), BLOOM_SIZE, RecMap(rs)) &&
    Slots(m[BUCKET_OFF..DATA_OFF], rs) &&
    Records(m[DATA_OFF..wp], rs)
  }

  // ----- lemmas: the record list -----

  /** The newest record of a key gives its value. */
  lemma {:induction false} RecMapNewest(rs: seq<Rec>, j: nat)
    requires j < |rs| && forall i :: j < i < |rs| ==> rs[i].key != rs[j].key
    ensures rs[j].key in RecMap(rs) && RecMap(rs)[rs[j].key] == rs[j].value
    decreases |rs|
  {
    if j < |rs| - 1 {
      var p := rs[..|rs| - 1];
      assert p[j] == rs[j];
      forall i | j < i < |p| ensures p[i].key != p[j].key {
        assert p[i] == rs[i];
      }
      RecMapNewest(p, j);
    }
  }

  /** A key no record holds is unbound. */
  lemma {:induction false} RecMapAbsent(rs: seq<Rec>, k: Key)
    requires forall i :: 0 <= i < |rs| ==> rs[i].key != k
    ensures k !in RecMap(rs)
    decreases |rs|
  {
    if rs != [] {
      var p := rs[..|rs| - 1];
      forall i | 0 <= i < |p| ensures p[i].key != k {
        assert p[i] == rs[i];
      }
      RecMapAbsent(p, k);
    }
  }

  /** Record j starts where the records before it end and finishes before write_pos. */
  lemma {:induction false} EndsPrefix(rs: seq<Rec>, j: nat)
    requires j < |rs|
    ensures Ends(rs[..j + 1]) == Ends(rs[..j]) + RecSize(rs[j])
    ensures Ends(rs[..j]) + RecSize(rs[j]) <= Ends(rs)
    decreases |rs|
  {
    assert rs[..j + 1][..j] == rs[..j];
    if j < |rs| - 1 {
      var p := rs[..|rs| - 1];
      assert p[..j] == rs[..j] && p[..j + 1] == rs[..j + 1] && p[j] == rs[j];
      EndsPrefix(p, j);
    } else {
      assert rs[..j + 1] == rs;
    }
  }

  /** One more record: the chain heads of the other buckets stay, its own bucket's head is the record. */
  lemma HeadSnoc(rs: seq<Rec>, r: Rec, b: nat)
    ensures Head(rs + [r], b) == if BucketOf(r.key) == b then Ends(rs) else Head(rs, b)
  {
    var rs2 := rs + [r];
    assert rs2[..|rs|] == rs;
    if BucketOf(r.key) == b {
      assert Last(rs2, b) == Some(|rs|);
    } else {
      assert Last(rs2, b) == Last(rs, b);
      match Last(rs, b)
      case None =>
      case Some(j) =>
        assert rs2[..j] == rs[..j];
    }
  }

  // ----- lemmas: bytes -----

  lemma {:induction false} FromLeZeros(s: seq<byte>)
    requires forall i :: 0 <= i < |s| ==> s[i] == 0
    ensures FromLe(s) == 0
    decreases |s|
  {
    if |s| > 0 {
      FromLeZeros(s[1..]);
    }
  }

  lemma SpliceOutside(m: seq<byte>, at: nat, s: seq<byte>, i: nat, j: nat)
    requires at + |s| <= |m| && i <= j <= |m| && (j <= at || at + |s| <= i)
    ensures Splice(m, at, s)[i..j] == m[i..j]
  {
    var r := Splice(m, at, s);
    forall x | i <= x < j ensures r[x] == m[x] {
      if x < at {
        assert r[x] == m[..at][x];
      } else {
        assert r[x] == m[at + |s|..][x - at - |s|];
      }
    }
  }

  lemma SpliceInside(m: seq<byte>, at: nat, s: seq<byte>)
    requires at + |s| <= |m|
    ensures Splice(m, at, s)[at..at + |s|] == s
  {
    var r := Splice(m, at, s);
    forall x | 0 <= x < |s| ensures r[at + x] == s[x] {
      assert r[at + x] == (m[..at] + s)[at + x];
    }
  }

  /** A write into a sub-range of the bucket area is the same write into that area. */
  lemma SpliceWithin(m: seq<byte>, lo: nat, hi: nat, at: nat, s: seq<byte>)
    requires lo <= at && at + |s| <= hi <= |m|
    ensures Splice(m, at, s)[lo..hi] == Splice(m[lo..hi], at - lo, s)
  {
    var r := Splice(m, at, s);
    var q := Splice(m[lo..hi], at - lo, s);
    forall x | lo <= x < hi ensures r[x] == q[x - lo] {
      if x < at {
        assert r[x] == m[..at][x];
        assert q[x - lo] == m[lo..hi][..at - lo][x - lo];
      } else if x < at + |s| {
        assert r[x] == (m[..at] + s)[x];
        assert q[x - lo] == (m[lo..hi][..at - lo] + s)[x - lo];
      } else {
        assert r[x] == m[at + |s|..][x - at - |s|];
        assert q[x - lo] == m[lo..hi][at - lo + |s|..][x - at - |s|];
      }
    }
  }

  // ----- lemmas: the bloom bytes -----

  /** BLOOM_SIZE is a multiple of 8, so `h % 8` is the bit of `h % BLOOM_SIZE`. */
  lemma ModEight(x: nat)
    ensures x % BLOOM_SIZE % 8 == x % 8
  {
    var q, p := x / BLOOM_SIZE, x % BLOOM_SIZE;
    var a := 0x20_0000 * q + p / 8;
    assert x == 8 * a + p % 8;
  }

  lemma BitOfIsMask(h: bv32)
    ensures BitOf(h) == Bloom.Mask(BloomPos(h)) && ByteIx(h) == BloomPos(h) / 8
  {
    ModEight(h as int);
  }

  lemma ToBvFromBv(x: bv8)
    ensures ToBv(FromBv(x)) == x
  {
  }

  /** bloom_add's byte update is the filter's WithBit at `h % BLOOM_SIZE`. */
  lemma SetBitView(m: seq<byte>, h: bv32)
    requires |m| >= BUCKET_OFF
    ensures BloomBits(SetBit(m, h)) == Bloom.WithBit(BloomBits(m), BloomPos(h))
    ensures SetBit(m, h)[BUCKET_OFF..] == m[BUCKET_OFF..]
  {
    BitOfIsMask(h);
    ToBvFromBv(ToBv(m[ByteIx(h)]) | BitOf(h));
  }

  lemma BloomAddView(m: seq<byte>, k: Key)
    requires |m| >= BUCKET_OFF
    ensures BloomBits(BloomAdd(m, k)) == Bloom.AddIn(BloomBits(m), BLOOM_SIZE, k)
    ensures BloomAdd(m, k)[BUCKET_OFF..] == m[BUCKET_OFF..]
  {
    var m1 := SetBit(m, Hashes.Fnv1a(k));
    var m2 := SetBit(m1, Hashes.Hash2(k));
    SetBitView(m, Hashes.Fnv1a(k));
    SetBitView(m1, Hashes.Hash2(k));
    SetBitView(m2, Hashes.Hash3(k));
  }

  /** bloom_maybe reads the bits bloom_add sets: it is the filter's membership test. */
  lemma BloomMaybeView(m: seq<byte>, k: Key)
    requires |m| >= BUCKET_OFF
    ensures BloomMaybe(m, k) <==> Bloom.MaybeIn(BloomBits(m), BLOOM_SIZE, k)
  {
    BitSetView(m, Hashes.Fnv1a(k));
    BitSetView(m, Hashes.Hash2(k));
    BitSetView(m, Hashes.Hash3(k));
    assert Bloom.Pos1(k, BLOOM_SIZE) == BloomPos(Hashes.Fnv1a(k));
    assert Bloom.Pos2(k, BLOOM_SIZE) == BloomPos(Hashes.Hash2(k));
    assert Bloom.Pos3(k, BLOOM_SIZE) == BloomPos(Hashes.Hash3(k));
  }

  lemma BitSetView(m: seq<byte>, h: bv32)
    requires |m| >= BUCKET_OFF
    ensures BitSet(m, h) <==> Bloom.BitAt(BloomBits(m), BloomPos(h))
  {
    BitOfIsMask(h);
    var i := ByteIx(h);
    assert BloomBits(m)[i] == ToBv(m[i]);
  }

  // ----- lemmas: the layout -----

  lemma HeadBelow(rs: seq<Rec>, b: nat)
    ensures Head(rs, b) <= Ends(rs)
  {
    match Last(rs, b)
    case None =>
    case Some(j) => EndsPrefix(rs, j);
  }

  /** kvm_open's region: zeroed heads and no records. */
  lemma LaidEmpty(m: seq<byte>)
    requires |m| == POOL_SIZE && forall i :: BUCKET_OFF <= i < DATA_OFF ==> m[i] == 0
    ensures Laid(m, DATA_OFF, [])
  {
    var S := m[BUCKET_OFF..DATA_OFF];
    forall b | 0 <= b < BUCKET_COUNT ensures FromLe(S[4 * b..4 * b + 4]) == Head([], b) {
      var w := S[4 * b..4 * b + 4];
      forall i | 0 <= i < 4 ensures w[i] == 0 {
        assert w[i] == S[4 * b + i];
        assert S[4 * b + i] == m[BUCKET_OFF + 4 * b + i];
      }
      FromLeZeros(w);
    }
  }

  /** Appending a record's image and its padding to the data area stores one more record. */
  lemma RecordsSnoc(D: seq<byte>, rs: seq<Rec>, r: Rec, pad: seq<byte>)
    requires Records(D, rs) && |r.key| < U32 && |r.value| < U32
    requires |Image(r, Head(rs, BucketOf(r.key)))| + |pad| == RecSize(r)
    ensures Records(D + Image(r, Head(rs, BucketOf(r.key))) + pad, rs + [r])
  {
    var img := Image(r, Head(rs, BucketOf(r.key)));
    var rs2, D2 := rs + [r], D + img + pad;
    assert rs2[..|rs|] == rs;
    assert D2 == D + (img + pad);
    forall j | 0 <= j < |rs2| ensures Stored(D2, rs2, j) {
      if j < |rs| {
        StoredKept(D, rs, r, img + pad, j);
      } else {
        StoredNew(D, rs, r, pad);
      }
    }
  }

  /** Appending to the data area and to the list keeps an old record stored. */
  lemma StoredKept(D: seq<byte>, rs: seq<Rec>, r: Rec, E: seq<byte>, j: nat)
    requires j < |rs| && Stored(D, rs, j)
    ensures Stored(D + E, rs + [r], j)
  {
    var rs2 := rs + [r];
    assert rs2[..j] == rs[..j] && rs2[j] == rs[j];
    StoredExtended(D, E, Ends(rs[..j]) - DATA_OFF, rs[j], Head(rs[..j], BucketOf(rs[j].key)));
  }

  lemma StoredExtended(D: seq<byte>, E: seq<byte>, o: nat, e: Rec, next: nat)
    requires StoredAs(D, o, e, next)
    ensures StoredAs(D + E, o, e, next)
  {
    assert (D + E)[..|D|] == D;
    assert (D + E)[o..o + |Image(e, next)|] == D[o..o + |Image(e, next)|];
  }

  /** The image written at write_pos stores the new record, linked to its bucket's old head. */
  lemma StoredNew(D: seq<byte>, rs: seq<Rec>, r: Rec, pad: seq<byte>)
    requires |D| == Ends(rs) - DATA_OFF && |r.key| < U32 && |r.value| < U32
    ensures Stored(D + Image(r, Head(rs, BucketOf(r.key))) + pad, rs + [r], |rs|)
  {
    var img := Image(r, Head(rs, BucketOf(r.key)));
    var rs2 := rs + [r];
    assert rs2[..|rs|] == rs && rs2[|rs|] == r;
    assert (D + img + pad)[|D|..|D| + |img|] == img;
  }

  /** Storing the new head of one bucket: that bucket's head is the new record, the others keep theirs. */
  lemma SlotsSnoc(S: seq<byte>, rs: seq<Rec>, r: Rec)
    requires Slots(S, rs) && Ends(rs) < U32
    ensures Slots(Splice(S, 4 * BucketOf(r.key), Le(Ends(rs), 4)), rs + [r])
  {
    var b := BucketOf(r.key);
    var S2 := Splice(S, 4 * b, Le(Ends(rs), 4));
    forall c | 0 <= c < BUCKET_COUNT ensures FromLe(S2[4 * c..4 * c + 4]) == Head(rs + [r], c) {
      HeadSnoc(rs, r, c);
      if c == b {
        SpliceInside(S, 4 * b, Le(Ends(rs), 4));
        Pow256Values();
        FromLeLe(Ends(rs), 4);
      } else {
        SpliceOutside(S, 4 * b, Le(Ends(rs), 4), 4 * c, 4 * c + 4);
      }
    }
  }

  /** What kvm_get reads at a record's offset: its lengths, its link, its key and its value. */
  ghost predicate ReadsAs(m: seq<byte>, off: nat, e: Rec, next: nat)
  {
    off + HEADER_SIZE <= |m| &&
    FromLe(m[off..off + 4]) == |e.key| && FromLe(m[off + 4..off + 8]) == |e.value| &&
    FromLe(m[off + 8..off + 12]) == next &&
    var kl, vl := FromLe(m[off..off + 4]), FromLe(m[off + 4..off + 8]);
    off + HEADER_SIZE + kl + vl <= |m| &&
    m[off + HEADER_SIZE..off + HEADER_SIZE + kl] == e.key &&
    m[off + HEADER_SIZE + kl..off + HEADER_SIZE + kl + vl] == e.value
  }

  /** A record image at off reads back as its record and link. */
  lemma ReadImage(m: seq<byte>, off: nat, e: Rec, next: nat)
    requires |e.key| < U32 && |e.value| < U32 && next < U32
    requires off + |Image(e, next)| <= |m| && m[off..off + |Image(e, next)|] == Image(e, next)
    ensures ReadsAs(m, off, e, next)
  {
    var img := Image(e, next);
    ImageFields(e, next);
    var kl, vl := |e.key|, |e.value|;
    assert FromLe(m[off..off + 4]) == kl by {
      SliceOfSlice(m, off, img, 0, 4);
      assert img[0..4] == img[..4];
    }
    assert FromLe(m[off + 4..off + 8]) == vl by {
      SliceOfSlice(m, off, img, 4, 8);
    }
    assert FromLe(m[off + 8..off + 12]) == next by {
      SliceOfSlice(m, off, img, 8, 12);
    }
    assert m[off + HEADER_SIZE..off + HEADER_SIZE + kl] == e.key by {
      SliceOfSlice(m, off, img, 12, 12 + kl);
    }
    assert m[off + HEADER_SIZE + kl..off + HEADER_SIZE + kl + vl] == e.value by {
      SliceOfSlice(m, off, img, 12 + kl, 12 + kl + vl);
    }
  }

  /** Record j of the region reads back, at its offset, as its record and chain link. */
  lemma RecordBytes(m: seq<byte>, wp: nat, rs: seq<Rec>, j: nat)
    requires DATA_OFF <= wp <= |m| && |m| < U32 && j < |rs| && Stored(m[DATA_OFF..wp], rs, j)
    ensures ReadsAs(m, Ends(rs[..j]), rs[j], Head(rs[..j], BucketOf(rs[j].key)))
  {
    var e := rs[j];
    var nx := Head(rs[..j], BucketOf(e.key));
    var d := Ends(rs[..j]) - DATA_OFF;
    assert nx < U32 by {
      HeadBelow(rs[..j], BucketOf(e.key));
    }
    ImageAt(m, DATA_OFF, wp, d, e, nx);
    assert DATA_OFF + d == Ends(rs[..j]);
  }

  /** A record image at offset d of the slice [lo, hi) of m reads back at lo + d. */
  lemma ImageAt(m: seq<byte>, lo: nat, hi: nat, d: nat, e: Rec, next: nat)
    requires lo <= hi <= |m| && next < U32 && StoredAs(m[lo..hi], d, e, next)
    ensures ReadsAs(m, lo + d, e, next)
  {
    SubSlice(m, lo, hi, d, d + |Image(e, next)|);
    ReadImage(m, lo + d, e, next);
  }

  lemma StoredAt(D: seq<byte>, rs: seq<Rec>, j: nat)
    requires Records(D, rs) && j < |rs|
    ensures Stored(D, rs, j)
  {
  }

  lemma SubSlice(m: seq<byte>, lo: nat, hi: nat, a: nat, b: nat)
    requires lo <= hi <= |m| && a <= b <= hi - lo
    ensures m[lo..hi][a..b] == m[lo + a..lo + b]
  {
    var w := m[lo..hi];
    forall x | a <= x < b ensures w[x] == m[lo + x] {
    }
    assert w[a..b] == m[lo + a..lo + b];
  }

  lemma SliceOfSlice(m: seq<byte>, off: nat, img: seq<byte>, a: nat, b: nat)
    requires off + |img| <= |m| && m[off..off + |img|] == img && a <= b <= |img|
    ensures m[off + a..off + b] == img[a..b]
  {
    SubSlice(m, off, off + |img|, a, b);
  }

  /** The header fields of a record image read back as the lengths and the link. */
  lemma ImageFields(e: Rec, next: nat)
    requires |e.key| < U32 && |e.value| < U32 && next < U32
    ensures var img, kl, vl := Image(e, next), |e.key|, |e.value|;
      FromLe(img[..4]) == kl && FromLe(img[4..8]) == vl && FromLe(img[8..12]) == next &&
      img[12..12 + kl] == e.key && img[12 + kl..12 + kl + vl] == e.value
  {
    var img := Image(e, next);
    Pow256Values();
    FromLeLe(|e.key|, 4);
    FromLeLe(|e.value|, 4);
    FromLeLe(next, 4);
    assert img[..4] == Le(|e.key|, 4);
    assert img[4..8] == Le(|e.value|, 4);
    assert img[8..12] == Le(next, 4);
    assert img[12..12 + |e.key|] == e.key;
  }

  /** Every stored key passes bloom_maybe. */
  lemma StoredKeysPass(m: seq<byte>, wp: nat, rs: seq<Rec>, k: Key)
    requires Laid(m, wp, rs) && k in RecMap(rs)
    ensures BloomMaybe(m, k)
  {
    BloomMaybeView(m, k);
  }

  /** A key failing bloom_maybe is not stored. */
  lemma MissedKeysAbsent(m: seq<byte>, wp: nat, rs: seq<Rec>, k: Key)
    requires Laid(m, wp, rs) && !BloomMaybe(m, k)
    ensures k !in RecMap(rs)
  {
    if k in RecMap(rs) {
      StoredKeysPass(m, wp, rs, k);
    }
  }

  // ----- kvm_put keeps the layout -----

  /**
   * kvm_put: after the record image (linked to the old head) is written at
   * write_pos, the head set to write_pos and the key added to the bloom
   * bytes, the region holds one more record and write_pos moves past it.
   */
  lemma PutLaid(m: seq<byte>, m1: seq<byte>, m2: seq<byte>, m3: seq<byte>, wp: nat, rs: seq<Rec>, r: Rec, slot: nat, next: nat,
                wp2: nat, rs2: seq<Rec>)
    requires Laid(m, wp, rs) && |r.key| < U32 && |r.value| < U32 && wp + RecSize(r) <= |m|
    requires slot == BUCKET_OFF + 4 * BucketOf(r.key) && next == FromLe(m[slot..slot + 4])
    requires m1 == Splice(m, wp, Image(r, next)) && m2 == Splice(m1, slot, Le(wp, 4)) && m3 == BloomAdd(m2, r.key)
    requires wp2 == wp + RecSize(r) && rs2 == rs + [r]
    ensures Laid(m3, wp2, rs2)
    ensures RecMap(rs2) == RecMap(rs)[r.key := r.value]
  {
    var b := BucketOf(r.key);
    var img := Image(r, next);
    assert Ends(rs2) == wp2 by {
      assert rs2[..|rs|] == rs;
    }
    PutBloom(m, m1, m2, m3, wp, rs, r, slot, next);
    assert Slots(m3[BUCKET_OFF..DATA_OFF], rs2) by {
      PutSlots(m, m1, m2, m3, wp, rs, r, slot, img);
    }
    assert Records(m3[DATA_OFF..wp2], rs2) by {
      SlotRead(m, wp, rs, b);
      PutRecords(m, m1, m2, m3, wp, rs, r, slot, next);
    }
    assert |m3| == POOL_SIZE && wp2 <= |m3|;
  }

  /** kvm_put's bucket area: the record's bucket now heads at write_pos. */
  lemma PutSlots(m: seq<byte>, m1: seq<byte>, m2: seq<byte>, m3: seq<byte>, wp: nat, rs: seq<Rec>, r: Rec, slot: nat, img: seq<byte>)
    requires |m| == POOL_SIZE && wp == Ends(rs) && wp + |img| <= |m| && Slots(m[BUCKET_OFF..DATA_OFF], rs)
    requires slot == BUCKET_OFF + 4 * BucketOf(r.key)
    requires m1 == Splice(m, wp, img) && m2 == Splice(m1, slot, Le(wp, 4)) && m3 == BloomAdd(m2, r.key)
    ensures Slots(m3[BUCKET_OFF..DATA_OFF], rs + [r])
  {
    var S := m[BUCKET_OFF..DATA_OFF];
    assert m3[BUCKET_OFF..DATA_OFF] == Splice(S, 4 * BucketOf(r.key), Le(Ends(rs), 4)) by {
      BloomAddView(m2, r.key);
      FrameSlots(m, m1, m2, m3, wp, img, slot, Le(wp, 4));
    }
    SlotsSnoc(S, rs, r);
  }

  /** kvm_put's data area: one more record, linked to its bucket's old head. */
  lemma PutRecords(m: seq<byte>, m1: seq<byte>, m2: seq<byte>, m3: seq<byte>, wp: nat, rs: seq<Rec>, r: Rec, slot: nat, next: nat)
    requires |m| == POOL_SIZE && DATA_OFF <= wp && wp + RecSize(r) <= |m| && Records(m[DATA_OFF..wp], rs)
    requires |r.key| < U32 && |r.value| < U32 && next == Head(rs, BucketOf(r.key))
    requires BUCKET_OFF <= slot && slot + 4 <= DATA_OFF
    requires m1 == Splice(m, wp, Image(r, next)) && m2 == Splice(m1, slot, Le(wp, 4)) && m3 == BloomAdd(m2, r.key)
    ensures Records(m3[DATA_OFF..wp + RecSize(r)], rs + [r])
  {
    var img := Image(r, next);
    var sz := RecSize(r);
    BloomAddView(m2, r.key);
    FrameData(m, m1, m2, m3, wp, img, slot, Le(wp, 4), sz);
    RecordsSnoc(m[DATA_OFF..wp], rs, r, m[wp + |img|..wp + sz]);
  }

  lemma PutBloom(m: seq<byte>, m1: seq<byte>, m2: seq<byte>, m3: seq<byte>, wp: nat, rs: seq<Rec>, r: Rec, slot: nat, next: nat)
    requires |m| == POOL_SIZE && DATA_OFF <= wp && wp + |Image(r, next)| <= |m|
    requires Bloom.BloomHolds(BloomBits(m), BLOOM_SIZE, RecMap(rs))
    requires slot == BUCKET_OFF + 4 * BucketOf(r.key)
    requires m1 == Splice(m, wp, Image(r, next)) && m2 == Splice(m1, slot, Le(wp, 4)) && m3 == BloomAdd(m2, r.key)
    ensures Bloom.BloomHolds(BloomBits(m3), BLOOM_SIZE, RecMap(rs + [r]))
    ensures RecMap(rs + [r]) == RecMap(rs)[r.key := r.value]
  {
    assert (rs + [r])[..|rs|] == rs;
    BloomAddView(m2, r.key);
    SpliceOutside(m, wp, Image(r, next), 0, BUCKET_OFF);
    SpliceOutside(m1, slot, Le(wp, 4), 0, BUCKET_OFF);
    BloomBitsPrefix(m2, m);
    Bloom.BloomPut(BloomBits(m), BLOOM_SIZE, RecMap(rs), r.key, r.value);
  }

  /** kvm_put's bucket-area write: only the slot changes there. */
  lemma FrameSlots(m: seq<byte>, m1: seq<byte>, m2: seq<byte>, m3: seq<byte>,
                   wp: nat, img: seq<byte>, slot: nat, x: seq<byte>)
    requires DATA_OFF <= wp && wp + |img| <= |m|
    requires BUCKET_OFF <= slot && slot + |x| <= DATA_OFF
    requires m1 == Splice(m, wp, img) && m2 == Splice(m1, slot, x)
    requires |m3| == |m2| && m3[BUCKET_OFF..] == m2[BUCKET_OFF..]
    ensures m3[BUCKET_OFF..DATA_OFF] == Splice(m[BUCKET_OFF..DATA_OFF], slot - BUCKET_OFF, x)
  {
    assert m1[BUCKET_OFF..DATA_OFF] == m[BUCKET_OFF..DATA_OFF] by {
      SpliceOutside(m, wp, img, BUCKET_OFF, DATA_OFF);
    }
    assert m2[BUCKET_OFF..DATA_OFF] == Splice(m1[BUCKET_OFF..DATA_OFF], slot - BUCKET_OFF, x) by {
      SpliceWithin(m1, BUCKET_OFF, DATA_OFF, slot, x);
    }
    TailSlice(m3, m2, BUCKET_OFF, DATA_OFF, DATA_OFF);
  }

  /** Two regions that agree from lo on agree on any slice from i >= lo. */
  lemma TailSlice(a: seq<byte>, c: seq<byte>, lo: nat, i: nat, j: nat)
    requires lo <= i <= j <= |a| == |c| && a[lo..] == c[lo..]
    ensures a[i..j] == c[i..j]
  {
    SubSlice(a, lo, |a|, i - lo, j - lo);
    SubSlice(c, lo, |c|, i - lo, j - lo);
  }

  /** kvm_put's data-area write: the record image at write_pos, the padding left as it was. */
  lemma FrameData(m: seq<byte>, m1: seq<byte>, m2: seq<byte>, m3: seq<byte>,
                  wp: nat, img: seq<byte>, slot: nat, x: seq<byte>, sz: nat)
    requires DATA_OFF <= wp && |img| <= sz && wp + sz <= |m|
    requires BUCKET_OFF <= slot && slot + |x| <= DATA_OFF
    requires m1 == Splice(m, wp, img) && m2 == Splice(m1, slot, x)
    requires |m3| == |m2| && m3[BUCKET_OFF..] == m2[BUCKET_OFF..]
    ensures m3[DATA_OFF..wp + sz] == m[DATA_OFF..wp] + img + m[wp + |img|..wp + sz]
  {
    assert m2[DATA_OFF..wp + sz] == m1[DATA_OFF..wp + sz] by {
      SpliceOutside(m1, slot, x, DATA_OFF, wp + sz);
    }
    assert m1[DATA_OFF..wp + sz] == m[DATA_OFF..wp] + img + m[wp + |img|..wp + sz] by {
      SpliceData(m, wp, img, sz);
    }
    TailSlice(m3, m2, BUCKET_OFF, DATA_OFF, wp + sz);
  }

  lemma BloomBitsPrefix(m: seq<byte>, m': seq<byte>)
    requires |m| >= BUCKET_OFF && |m'| >= BUCKET_OFF && m[..BUCKET_OFF] == m'[..BUCKET_OFF]
    ensures BloomBits(m) == BloomBits(m')
  {
    forall i | 0 <= i < BUCKET_OFF ensures BloomBits(m)[i] == BloomBits(m')[i] {
      assert m[..BUCKET_OFF][i] == m'[..BUCKET_OFF][i];
    }
  }

  lemma SpliceData(m: seq<byte>, wp: nat, img: seq<byte>, sz: nat)
    requires DATA_OFF <= wp && |img| <= sz && wp + sz <= |m|
    ensures Splice(m, wp, img)[DATA_OFF..wp + sz] == m[DATA_OFF..wp] + img + m[wp + |img|..wp + sz]
  {
    var m1 := Splice(m, wp, img);
    var q := m[DATA_OFF..wp] + img + m[wp + |img|..wp + sz];
    forall x | DATA_OFF <= x < wp + sz ensures m1[x] == q[x - DATA_OFF] {
      if x < wp {
        assert m1[x] == m[..wp][x];
      } else if x < wp + |img| {
        assert m1[x] == (m[..wp] + img)[x];
      } else {
        assert m1[x] == m[wp + |img|..][x - wp - |img|];
      }
    }
  }

  /** What kvm_put and kvm_get read from a bucket's slot: its chain head. */
  lemma SlotRead(m: seq<byte>, wp: nat, rs: seq<Rec>, b: nat)
    requires Laid(m, wp, rs) && b < BUCKET_COUNT
    ensures FromLe(m[BUCKET_OFF + 4 * b..BUCKET_OFF + 4 * b + 4]) == Head(rs, b)
  {
    SubSlice(m, BUCKET_OFF, DATA_OFF, 4 * b, 4 * b + 4);
  }

  // ----- writing the region -----

  /** memcpy(mem + at, s, |s|) */
  method Blit(mem: array<byte>, at: nat, s: seq<byte>)
    requires at + |s| <= mem.Length
    modifies mem
    ensures mem[..] == Splice(old(mem[..]), at, s)
  {
    var i := 0;
    while i < |s|
      invariant i <= |s|
      invariant forall x :: 0 <= x < mem.Length ==> mem[x] == if at <= x < at + i then s[x - at] else old(mem[x])
    {
      mem[at + i] := s[i];
      i := i + 1;
    }
    assert mem[..] == Splice(old(mem[..]), at, s) by {
      var m := Splice(old(mem[..]), at, s);
      forall x | 0 <= x < mem.Length ensures mem[x] == m[x] {
        if x < at {
          assert m[x] == old(mem[..])[..at][x];
        } else if x < at + |s| {
          assert m[x] == (old(mem[..])[..at] + s)[x];
        } else {
          assert m[x] == old(mem[..])[at + |s|..][x - at - |s|];
        }
      }
    }
  }

  /** `bloom[(h % BLOOM_SIZE) >> 3] |= 1 << (h % 8)` on the region. */
  method SetBloomBit(mem: array<byte>, h: bv32)
    requires mem.Length >= BUCKET_OFF
    modifies mem
    ensures mem[..] == SetBit(old(mem[..]), h)
  {
    var i := ByteIx(h);
    mem[i] := FromBv(ToBv(mem[i]) | BitOf(h));
  }

  /**
   * kvm_put's three stores: the record image at write_pos, write_pos into
   * the bucket slot, the key into the bloom bytes.
   */
  method WriteRecord(mem: array<byte>, wp: nat, e: Rec, slot: nat, next: nat)
    requires wp + |Image(e, next)| <= mem.Length && BUCKET_OFF <= slot && slot + 4 <= mem.Length
    modifies mem
    ensures mem[..] == BloomAdd(Splice(Splice(old(mem[..]), wp, Image(e, next)), slot, Le(wp, 4)), e.key)
  {
    Blit(mem, wp, Image(e, next));
    Blit(mem, slot, Le(wp, 4));
    AddToBloom(mem, e.key);
  }

  /** bloom_add: the three hashes' bits. */
  method AddToBloom(mem: array<byte>, k: Key)
    requires mem.Length >= BUCKET_OFF
    modifies mem
    ensures mem[..] == BloomAdd(old(mem[..]), k)
  {
    SetBloomBit(mem, Hashes.Fnv1a(k));
    SetBloomBit(mem, Hashes.Hash2(k));
    SetBloomBit(mem, Hashes.Hash3(k));
  }

  class Store {
    /** The region: mem_size is its length. */
    const mem: array<byte>
    var writePos: nat
    var count: nat
    /** Every record stored, oldest first. */
    ghost var recs: seq<Rec>

    /** The key/value map kvm_get observes. */
    ghost function Contents(): map<Key, Value>
      reads this
    {
      RecMap(recs)
    }

    ghost predicate Valid()
      reads this, mem
    {
      Laid(mem[..], writePos, recs) && count == |recs|
    }

    /** kvm_open: a POOL_SIZE region whose bloom and bucket areas are zeroed; write_pos at DATA_OFF. */
    constructor ()
      ensures Valid() && fresh(mem) && recs == [] && Contents() == map[]
      ensures writePos == DATA_OFF && count == 0
      ensures forall i :: 0 <= i < DATA_OFF ==> mem[i] == 0
    {
      var m := new byte[POOL_SIZE];
      var i := 0;
      // memset(db->mem, 0, DATA_OFF)
      while i < DATA_OFF
        invariant i <= DATA_OFF
        invariant forall x :: 0 <= x < i ==> m[x] == 0
      {
        m[i] := 0;
        i := i + 1;
      }
      mem := m;
      writePos := DATA_OFF;
      count := 0;
      recs := [];
      new;
      LaidEmpty(mem[..]);
    }

    /**
     * kvm_put: -1, with nothing written, when the padded record does not fit
     * before the end of the region; otherwise the record is stored at
     * write_pos as its bucket's new head, the key's bloom bits are set, and
     * write_pos and count advance.
     */
    method Put(key: seq<byte>, val: seq<byte>) returns (r: int)
      requires Valid()
      modifies this, mem
      ensures Valid()
      ensures var e := Rec(Str32(key), Str32(val));
        (r == 0 <==> old(writePos) + RecSize(e) <= POOL_SIZE) &&
        (r == 0 ==> recs == old(recs) + [e] && writePos == old(writePos) + RecSize(e) && count == old(count) + 1) &&
        (r == 0 ==> Contents() == old(Contents())[e.key := e.value]) &&
        (r != 0 ==> r == -1 && recs == old(recs) && writePos == old(writePos) && count == old(count) && mem[..] == old(mem[..]))
    {
      var e := Rec(Str32(key), Str32(val));
      if writePos + RecSize(e) > mem.Length {
        return -1;
      }
      Write(e);
      r := 0;
    }

    /**
     * The rest of kvm_put once the record fits: its image, linked to the old
     * head of its bucket, is copied to write_pos, the head becomes write_pos,
     * the key's bloom bits are set, and write_pos and count advance.
     */
    method Write(e: Rec)
      requires Valid() && |e.key| < U32 && |e.value| < U32 && writePos + RecSize(e) <= mem.Length
      modifies this, mem
      ensures Valid()
      ensures recs == old(recs) + [e] && writePos == old(writePos) + RecSize(e) && count == old(count) + 1
      ensures Contents() == old(Contents())[e.key := e.value]
    {
      var slot := BUCKET_OFF + 4 * BucketOf(e.key);
      var next := FromLe(mem[slot..slot + 4]);
      ghost var m0 := mem[..];
      WriteRecord(mem, writePos, e, slot, next);
      ghost var wp0, rs0 := writePos, recs;
      writePos := writePos + RecSize(e);
      count := count + 1;
      recs := recs + [e];
      ghost var m1 := Splice(m0, wp0, Image(e, next));
      PutLaid(m0, m1, Splice(m1, slot, Le(wp0, 4)), mem[..], wp0, rs0, e, slot, next, writePos, recs);
    }

    /**
     * kvm_get: NULL (None) when bloom_maybe rejects the key; otherwise the
     * chain of its bucket is walked from the head read out of its slot.
     * The answer is the value of the latest put of the key, or None if it
     * was never put.
     */
    method Get(key: seq<byte>) returns (r: Option<Value>)
      requires Valid()
      ensures r == if Str32(key) in Contents() then Some(Contents()[Str32(key)]) else None
    {
      var k := Str32(key);
      if !BloomMaybe(mem[..], k) {
        MissedKeysAbsent(mem[..], writePos, recs, k);
        return None;
      }
      var b := BucketOf(k);
      var off := FromLe(mem[BUCKET_OFF + 4 * b..BUCKET_OFF + 4 * b + 4]);
      SlotRead(mem[..], writePos, recs, b);
      r := Walk(mem, writePos, recs, k, off);
    }
  }

  /**
   * kvm_get's chain walk from the bucket head off: records are visited
   * newest first until an offset below DATA_OFF; the first with the same
   * key length and bytes gives the value.
   */
  method Walk(mem: array<byte>, ghost wp: nat, ghost rs: seq<Rec>, k: Key, head: nat) returns (r: Option<Value>)
    requires DATA_OFF <= wp <= mem.Length < U32 && Records(mem[DATA_OFF..wp], rs)
    requires head == Head(rs, BucketOf(k))
    ensures r == if k in RecMap(rs) then Some(RecMap(rs)[k]) else None
  {
    var b := BucketOf(k);
    var off := head;
    ghost var n := |rs|;
    assert rs[..n] == rs;
    while off >= DATA_OFF
      invariant n <= |rs|
      invariant off == Head(rs[..n], b)
      invariant forall i :: n <= i < |rs| && BucketOf(rs[i].key) == b ==> rs[i].key != k
      decreases n
    {
      ghost var j := Visit(mem[..], wp, rs, n, b, off);
      var found := Probe(mem, off, k, rs[j], Head(rs[..j], b));
      if found.Some? {
        Found(rs, n, b, j, k);
        return found;
      }
      Passed(rs, n, b, j, k);
      off := FromLe(mem[off + 8..off + 12]);
      n := j;
    }
    NotFound(rs, n, b, k);
    return None;
  }

  /**
   * kvm_get's test at one record of the chain: the key length, then memcmp
   * of the key bytes; on a match the value is copied out.
   */
  method Probe(mem: array<byte>, off: nat, k: Key, ghost e: Rec, ghost next: nat) returns (found: Option<Value>)
    requires ReadsAs(mem[..], off, e, next)
    ensures found == if e.key == k then Some(e.value) else None
  {
    KeyTest(mem[..], off, e, next, k);
    var kl := FromLe(mem[off..off + 4]);
    if kl == |k| && Memcmp(mem[off + HEADER_SIZE..off + HEADER_SIZE + kl], k, kl) == 0 {
      var vl := FromLe(mem[off + 4..off + 8]);
      return Some(mem[off + HEADER_SIZE + kl..off + HEADER_SIZE + kl + vl]);
    }
    return None;
  }

  /** The walk's match: the newest record of the bucket whose key is k is k's newest record. */
  lemma Found(rs: seq<Rec>, n: nat, b: nat, j: nat, k: Key)
    requires n <= |rs| && Last(rs[..n], b) == Some(j) && BucketOf(k) == b
    requires forall i :: n <= i < |rs| && BucketOf(rs[i].key) == b ==> rs[i].key != k
    requires rs[j].key == k
    ensures k in RecMap(rs) && RecMap(rs)[k] == rs[j].value
  {
    forall i | j < i < |rs| ensures rs[i].key != rs[j].key {
      if i < n {
        NewerElsewhere(rs, n, b, j, i);
      }
    }
    RecMapNewest(rs, j);
  }

  /** The walk's step: past a record that does not match, no record from it on holds k. */
  lemma Passed(rs: seq<Rec>, n: nat, b: nat, j: nat, k: Key)
    requires n <= |rs| && Last(rs[..n], b) == Some(j) && rs[j].key != k
    requires forall i :: n <= i < |rs| && BucketOf(rs[i].key) == b ==> rs[i].key != k
    ensures forall i :: j <= i < |rs| && BucketOf(rs[i].key) == b ==> rs[i].key != k
  {
    forall i | j < i < n ensures BucketOf(rs[i].key) != b {
      NewerElsewhere(rs, n, b, j, i);
    }
  }

  /** Records newer than the newest of bucket b in rs[..n] belong to other buckets. */
  lemma NewerElsewhere(rs: seq<Rec>, n: nat, b: nat, j: nat, i: nat)
    requires n <= |rs| && Last(rs[..n], b) == Some(j) && j < i < n
    ensures BucketOf(rs[i].key) != b
  {
    assert rs[..n][i] == rs[i];
    if BucketOf(rs[i].key) == b {
      LastIsNewest(rs[..n], b, i);
    }
  }

  /** kvm_get's key test at a record: equal lengths and memcmp 0 exactly when the record's key is k. */
  lemma KeyTest(m: seq<byte>, off: nat, e: Rec, next: nat, k: Key)
    requires ReadsAs(m, off, e, next)
    ensures var kl := FromLe(m[off..off + 4]);
      kl == |k| && Memcmp(m[off + HEADER_SIZE..off + HEADER_SIZE + kl], k, kl) == 0 <==> e.key == k
  {
    var kl := FromLe(m[off..off + 4]);
    if kl == |k| {
      var a := m[off + HEADER_SIZE..off + HEADER_SIZE + kl];
      MemcmpZero(a, k, kl);
      assert a[..kl] == a && k[..kl] == k;
    }
  }

  /**
   * One step of kvm_get's walk: at a chain offset not below DATA_OFF sits
   * the newest record of the bucket among the first n, with its lengths,
   * key, value and link where the walk reads them.
   */
  lemma Visit(m: seq<byte>, wp: nat, rs: seq<Rec>, n: nat, b: nat, off: nat) returns (j: nat)
    requires DATA_OFF <= wp <= |m| && |m| < U32 && Records(m[DATA_OFF..wp], rs) && n <= |rs| && off == Head(rs[..n], b) && off >= DATA_OFF
    ensures j < n && Last(rs[..n], b) == Some(j)
    ensures ReadsAs(m, off, rs[j], Head(rs[..j], b))
  {
    j := Last(rs[..n], b).value;
    assert BucketOf(rs[j].key) == b by {
      assert rs[..n][j] == rs[j];
    }
    assert off == Ends(rs[..j]) by {
      assert rs[..n][..j] == rs[..j];
    }
    StoredAt(m[DATA_OFF..wp], rs, j);
    RecordBytes(m, wp, rs, j);
  }

  /** The walk's end: the chain is exhausted, so no record holds k. */
  lemma NotFound(rs: seq<Rec>, n: nat, b: nat, k: Key)
    requires n <= |rs| && Head(rs[..n], b) < DATA_OFF && BucketOf(k) == b
    requires forall i :: n <= i < |rs| && BucketOf(rs[i].key) == b ==> rs[i].key != k
    ensures k !in RecMap(rs)
  {
    assert Last(rs[..n], b).None?;
    forall i | 0 <= i < |rs| ensures rs[i].key != k {
      if i < n && rs[i].key == k {
        assert rs[..n][i] == rs[i];
        LastIsNewest(rs[..n], b, i);
      }
    }
    RecMapAbsent(rs, k);
  }
}
