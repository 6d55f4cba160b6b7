/**
 * The growable bloom filter of b+tree/kvs.c:83-128, hash_rbtree/kvs.c:76-135 and
 * kvs_hybrid.c:96-179: a byte bitmap of `bits` bits addressed by the three
 * hashes, a counter of set bits that only counts 0 -> 1 transitions, and
 * growth by a factor of four up to a cap.  The code is the same in the three
 * files; what differs is how each engine re-adds its keys after a growth, so
 * that walk lives in the engines.
 */
module Bloom {
  import opened Keys
  import Hashes
  import Seqs

  const INIT_BITS: nat := 0x10_0000    // 1 << 20
  const MAX_BITS: nat := 0x400_0000    // 1 << 26

  /** `1 << (pos & 7)` */
  function Mask(p: nat): bv8
  {
    (1 as bv8) << ((p % 8) as bv8)
  }

  /** bloom_get_bit on a bitmap: bit `pos & 7` of byte `pos >> 3`. */
  predicate BitAt(m: seq<bv8>, p: nat)
    requires p / 8 < |m|
  {
    m[p / 8] & Mask(p) != 0
  }

  /** The bitmap after `bloom[pos >> 3] |= 1 << (pos & 7)`. */
  function WithBit(m: seq<bv8>, p: nat): seq<bv8>
    requires p / 8 < |m|
  {
    m[p / 8 := m[p / 8] | Mask(p)]
  }

  /** m2 has every bit of m1 set (and possibly more). */
  predicate Covers(m2: seq<bv8>, m1: seq<bv8>)
  {
    |m2| == |m1| && forall i :: 0 <= i < |m1| ==> m1[i] | m2[i] == m2[i]
  }

  /** Number of set bits in a byte. */
  function ByteBits(b: bv8): nat
  {
    (if b & 1 != 0 then 1 else 0) + (if b & 2 != 0 then 1 else 0) +
    (if b & 4 != 0 then 1 else 0) + (if b & 8 != 0 then 1 else 0) +
    (if b & 16 != 0 then 1 else 0) + (if b & 32 != 0 then 1 else 0) +
    (if b & 64 != 0 then 1 else 0) + (if b & 128 != 0 then 1 else 0)
  }

  /** Number of set bits in a bitmap. */
  function PopCount(m: seq<bv8>): nat
  {
    if |m| == 0 then 0 else PopCount(m[..|m| - 1]) + ByteBits(m[|m| - 1])
  }

  function Zeros(n: nat): (r: seq<bv8>)
    ensures |r| == n && forall i :: 0 <= i < n ==> r[i] == 0
  {
    seq(n, _ => 0)
  }

  // ----- the three positions of a key -----

  function Pos1(k: Key, bits: nat): nat requires bits > 0 { Hashes.Fnv1a(k) as int % bits }
  function Pos2(k: Key, bits: nat): nat requires bits > 0 { Hashes.Hash2(k) as int % bits }
  function Pos3(k: Key, bits: nat): nat requires bits > 0 { Hashes.Hash3(k) as int % bits }

  predicate WellSized(m: seq<bv8>, bits: nat)
  {
    bits > 0 && bits % 8 == 0 && |m| == bits / 8
  }

  /** bloom_maybe: all three of the key's bits are set. */
  predicate MaybeIn(m: seq<bv8>, bits: nat, k: Key)
    requires WellSized(m, bits)
  {
    BitAt(m, Pos1(k, bits)) && BitAt(m, Pos2(k, bits)) && BitAt(m, Pos3(k, bits))
  }

  /** The bitmap after bloom_add. */
  function AddIn(m: seq<bv8>, bits: nat, k: Key): (r: seq<bv8>)
    requires WellSized(m, bits)
    ensures WellSized(r, bits)
  {
    WithBit(WithBit(WithBit(m, Pos1(k, bits)), Pos2(k, bits)), Pos3(k, bits))
  }

  /** The bitmap after bloom_add for each key of ks in turn: what a rebuild after a growth leaves. */
  function AddKeys(m: seq<bv8>, bits: nat, ks: seq<Key>): (r: seq<bv8>)
    requires WellSized(m, bits)
    ensures WellSized(r, bits)
    decreases |ks|
  {
    if |ks| == 0 then m else AddIn(AddKeys(m, bits, ks[..|ks| - 1]), bits, ks[|ks| - 1])
  }

  /** bloom_expand's new size: four times larger, but never past KVS_BLOOM_MAX_BITS. */
  function GrownBits(bits: nat): (r: nat)
    ensures bits <= MAX_BITS ==> bits <= r <= MAX_BITS
    ensures bits <= MAX_BITS ==> (r == bits <==> (bits == MAX_BITS || bits == 0))
    ensures bits < MAX_BITS && bits > 0 ==> r > bits
  {
    if bits * 4 > MAX_BITS then MAX_BITS else bits * 4
  }

  // ----- lemmas about the bitmap -----

  lemma MaskBit(p: nat)
    ensures Mask(p) != 0
  {
    var j := (p % 8) as bv8;
    assert j < 8;
  }

  /** Setting a bit sets it and leaves every bit that was set still set. */
  lemma WithBitCovers(m: seq<bv8>, p: nat)
    requires p / 8 < |m|
    ensures |WithBit(m, p)| == |m|
    ensures BitAt(WithBit(m, p), p)
    ensures Covers(WithBit(m, p), m)
  {
    MaskBit(p);
    var r := WithBit(m, p);
    assert r[p / 8] & Mask(p) == Mask(p);
    forall i | 0 <= i < |m| ensures m[i] | r[i] == r[i] {
      if i == p / 8 {
        assert m[i] | (m[i] | Mask(p)) == m[i] | Mask(p);
      }
    }
  }

  lemma CoversTrans(m3: seq<bv8>, m2: seq<bv8>, m1: seq<bv8>)
    requires Covers(m3, m2) && Covers(m2, m1)
    ensures Covers(m3, m1)
  {
    forall i | 0 <= i < |m1| ensures m1[i] | m3[i] == m3[i] {
      assert m1[i] | m2[i] == m2[i];
      assert m2[i] | m3[i] == m3[i];
      assert m1[i] | m3[i] == m1[i] | (m2[i] | m3[i]) == (m1[i] | m2[i]) | m3[i];
    }
  }

  lemma CoversRefl(m: seq<bv8>)
    ensures Covers(m, m)
  {
    forall i | 0 <= i < |m| ensures m[i] | m[i] == m[i] { }
  }

  /** A set bit stays set in any bitmap that covers it. */
  lemma CoversBitAt(m2: seq<bv8>, m1: seq<bv8>, p: nat)
    requires Covers(m2, m1) && p / 8 < |m1| && BitAt(m1, p)
    ensures BitAt(m2, p)
  {
    var i := p / 8;
    assert m1[i] | m2[i] == m2[i];
    var x, y, k := m1[i], m2[i], Mask(p);
    assert x & k != 0 && x | y == y ==> y & k != 0;
  }

  /** A key the filter may contain is still possibly contained in any covering bitmap. */
  lemma CoversMaybe(m2: seq<bv8>, m1: seq<bv8>, bits: nat, k: Key)
    requires WellSized(m1, bits) && Covers(m2, m1) && MaybeIn(m1, bits, k)
    ensures WellSized(m2, bits) && MaybeIn(m2, bits, k)
  {
    CoversBitAt(m2, m1, Pos1(k, bits));
    CoversBitAt(m2, m1, Pos2(k, bits));
    CoversBitAt(m2, m1, Pos3(k, bits));
  }

  /** bloom_add makes bloom_maybe true for the key and forgets nothing. */
  lemma AddInProperties(m: seq<bv8>, bits: nat, k: Key)
    requires WellSized(m, bits)
    ensures WellSized(AddIn(m, bits, k), bits)
    ensures MaybeIn(AddIn(m, bits, k), bits, k)
    ensures Covers(AddIn(m, bits, k), m)
  {
    var p1, p2, p3 := Pos1(k, bits), Pos2(k, bits), Pos3(k, bits);
    var m1 := WithBit(m, p1);
    var m2 := WithBit(m1, p2);
    var m3 := WithBit(m2, p3);
    WithBitCovers(m, p1);
    WithBitCovers(m1, p2);
    WithBitCovers(m2, p3);
    CoversBitAt(m2, m1, p1);
    CoversBitAt(m3, m2, p1);
    CoversBitAt(m3, m2, p2);
    CoversTrans(m2, m1, m);
    CoversTrans(m3, m2, m);
  }

  /** After adding ks, the filter may contain every key of ks, and it has forgotten no bit of m. */
  lemma {:induction false} AddKeysMaybe(m: seq<bv8>, bits: nat, ks: seq<Key>)
    requires WellSized(m, bits)
    ensures forall i :: 0 <= i < |ks| ==> MaybeIn(AddKeys(m, bits, ks), bits, ks[i])
    ensures Covers(AddKeys(m, bits, ks), m)
    decreases |ks|
  {
    if |ks| == 0 {
      CoversRefl(m);
    } else {
      var init, last := ks[..|ks| - 1], ks[|ks| - 1];
      var before := AddKeys(m, bits, init);
      AddKeysMaybe(m, bits, init);
      AddInProperties(before, bits, last);
      CoversTrans(AddIn(before, bits, last), before, m);
      forall i | 0 <= i < |ks| - 1 ensures MaybeIn(AddIn(before, bits, last), bits, ks[i]) {
        assert init[i] == ks[i];
        CoversMaybe(AddIn(before, bits, last), before, bits, ks[i]);
      }
    }
  }

  /** The bitmap after the next key of a rebuild. */
  lemma AddKeysSnoc(m: seq<bv8>, bits: nat, ks: seq<Key>, k: Key)
    requires WellSized(m, bits)
    ensures AddKeys(m, bits, ks + [k]) == AddIn(AddKeys(m, bits, ks), bits, k)
  {
    assert (ks + [k])[..|ks|] == ks;
  }

  /** Adding the keys of a + b adds those of a, then those of b. */
  lemma {:induction false} AddKeysAppend(m: seq<bv8>, bits: nat, a: seq<Key>, b: seq<Key>)
    requires WellSized(m, bits)
    ensures AddKeys(m, bits, a + b) == AddKeys(AddKeys(m, bits, a), bits, b)
    decreases |b|
  {
    if |b| == 0 {
      assert a + b == a;
    } else {
      Seqs.WithoutLast(a, b);
      AddKeysAppend(m, bits, a, b[..|b| - 1]);
    }
  }

  lemma {:induction false} PopCountAppend(a: seq<bv8>, b: seq<bv8>)
    ensures PopCount(a + b) == PopCount(a) + PopCount(b)
    decreases |b|
  {
    if |b| == 0 {
      assert a + b == a;
    } else {
      Seqs.WithoutLast(a, b);
      PopCountAppend(a, b[..|b| - 1]);
    }
  }

  lemma PopCountOne(x: bv8)
    ensures PopCount([x]) == ByteBits(x)
  {
    assert [x][..0] == [];
  }

  /** Replacing one byte changes the count by the difference of the two bytes' counts. */
  lemma PopCountUpdate(m: seq<bv8>, i: nat, b: bv8)
    requires i < |m|
    ensures PopCount(m[i := b]) + ByteBits(m[i]) == PopCount(m) + ByteBits(b)
  {
    var A, B := m[..i], m[i + 1..];
    assert m == A + [m[i]] + B;
    assert m[i := b] == A + [b] + B;
    PopCountAppend(A + [m[i]], B);
    PopCountAppend(A, [m[i]]);
    PopCountAppend(A + [b], B);
    PopCountAppend(A, [b]);
    PopCountOne(m[i]);
    PopCountOne(b);
  }

  /** Setting one bit of a byte adds one to its count unless the bit was already set. */
  lemma ByteBitsOr(b: bv8, m: bv8)
    requires m == 1 || m == 2 || m == 4 || m == 8 || m == 16 || m == 32 || m == 64 || m == 128
    ensures ByteBits(b | m) == ByteBits(b) + (if b & m != 0 then 0 else 1)
  {
    if m == 1 { ByteBitsOr1(b); }
    else if m == 2 { ByteBitsOr2(b); }
    else if m == 4 { ByteBitsOr4(b); }
    else if m == 8 { ByteBitsOr8(b); }
    else if m == 16 { ByteBitsOr16(b); }
    else if m == 32 { ByteBitsOr32(b); }
    else if m == 64 { ByteBitsOr64(b); }
    else { ByteBitsOr128(b); }
  }

  lemma ByteBitsOr1(b: bv8)
    ensures ByteBits(b | 1) == ByteBits(b) + (if b & 1 != 0 then 0 else 1)
  {
  }

  lemma ByteBitsOr2(b: bv8)
    ensures ByteBits(b | 2) == ByteBits(b) + (if b & 2 != 0 then 0 else 1)
  {
  }

  lemma ByteBitsOr4(b: bv8)
    ensures ByteBits(b | 4) == ByteBits(b) + (if b & 4 != 0 then 0 else 1)
  {
  }

  lemma ByteBitsOr8(b: bv8)
    ensures ByteBits(b | 8) == ByteBits(b) + (if b & 8 != 0 then 0 else 1)
  {
  }

  lemma ByteBitsOr16(b: bv8)
    ensures ByteBits(b | 16) == ByteBits(b) + (if b & 16 != 0 then 0 else 1)
  {
  }

  lemma ByteBitsOr32(b: bv8)
    ensures ByteBits(b | 32) == ByteBits(b) + (if b & 32 != 0 then 0 else 1)
  {
  }

  lemma ByteBitsOr64(b: bv8)
    ensures ByteBits(b | 64) == ByteBits(b) + (if b & 64 != 0 then 0 else 1)
  {
  }

  lemma ByteBitsOr128(b: bv8)
    ensures ByteBits(b | 128) == ByteBits(b) + (if b & 128 != 0 then 0 else 1)
  {
  }

  /** The set-bit count grows by one exactly when a bit goes from 0 to 1. */
  lemma PopCountWithBit(m: seq<bv8>, p: nat)
    requires p / 8 < |m|
    ensures PopCount(WithBit(m, p)) == PopCount(m) + (if BitAt(m, p) then 0 else 1)
  {
    var i := p / 8;
    var b := m[i];
    var nb := b | Mask(p);
    PopCountUpdate(m, i, nb);
    assert WithBit(m, p) == m[i := nb];
    ByteBitsMask(b, p);
    assert BitAt(m, p) <==> b & Mask(p) != 0;
  }

  lemma ByteBitsMask(b: bv8, p: nat)
    ensures ByteBits(b | Mask(p)) == ByteBits(b) + (if b & Mask(p) != 0 then 0 else 1)
  {
    MaskIsOneBit(p);
    ByteBitsOr(b, Mask(p));
  }

  lemma WithBitNoop(m: seq<bv8>, p: nat)
    requires p / 8 < |m| && BitAt(m, p)
    ensures WithBit(m, p) == m
  {
    var i := p / 8;
    var x, k := m[i], Mask(p);
    assert x & k != 0 ==> x | k == x by {
      MaskIsOneBit(p);
    }
  }

  /** bloom_add of a key that already passes bloom_maybe sets no new bit. */
  lemma AddInNoop(m: seq<bv8>, bits: nat, k: Key)
    requires WellSized(m, bits) && MaybeIn(m, bits, k)
    ensures AddIn(m, bits, k) == m
  {
    WithBitNoop(m, Pos1(k, bits));
    WithBitNoop(m, Pos2(k, bits));
    WithBitNoop(m, Pos3(k, bits));
  }

  lemma MaskIsOneBit(p: nat)
    ensures Mask(p) == 1 || Mask(p) == 2 || Mask(p) == 4 || Mask(p) == 8 ||
            Mask(p) == 16 || Mask(p) == 32 || Mask(p) == 64 || Mask(p) == 128
  {
    var j := p % 8;
    if j == 0 { assert (1 as bv8) << (0 as bv8) == 1; }
    else if j == 1 { assert (1 as bv8) << (1 as bv8) == 2; }
    else if j == 2 { assert (1 as bv8) << (2 as bv8) == 4; }
    else if j == 3 { assert (1 as bv8) << (3 as bv8) == 8; }
    else if j == 4 { assert (1 as bv8) << (4 as bv8) == 16; }
    else if j == 5 { assert (1 as bv8) << (5 as bv8) == 32; }
    else if j == 6 { assert (1 as bv8) << (6 as bv8) == 64; }
    else { assert (1 as bv8) << (7 as bv8) == 128; }
  }

  lemma {:induction false} PopCountZeros(n: nat)
    ensures PopCount(Zeros(n)) == 0
  {
    if n > 0 {
      assert Zeros(n)[..n - 1] == Zeros(n - 1);
      PopCountZeros(n - 1);
    }
  }

  /** The filter state of one engine: db->bloom, db->bloom_bits, db->bloom_set_bits. */
  class Filter {
    var bitmap: array<bv8>
    var bits: nat
    var setBits: nat

    /**
     * The bitmap holds bits/8 bytes, and the set-bit counter never exceeds the
     * number of set bits; it equals it except after kvs_load, which restores
     * the bitmap but leaves the counter at 0.
     */
    ghost predicate Valid()
      reads this, bitmap
    {
      WellSized(bitmap[..], bits) && setBits <= PopCount(bitmap[..])
    }

    /** kvs_open: an all-zero bitmap of KVS_BLOOM_INIT_BITS bits. */
    constructor ()
      ensures Valid() && fresh(bitmap)
      ensures bits == INIT_BITS && setBits == 0 && bitmap[..] == Zeros(INIT_BITS / 8)
    {
      bitmap := new bv8[INIT_BITS / 8](_ => 0);
      bits := INIT_BITS;
      setBits := 0;
      new;
      assert bitmap[..] == Zeros(INIT_BITS / 8);
      PopCountZeros(INIT_BITS / 8);
    }

    /**
     * The bitmap step of kvs_load: a bitmap read from a file replaces the one
     * kvs_open made; the set-bit counter keeps the value kvs_open gave it.
     */
    method Restore(m: seq<bv8>, newBits: nat)
      requires Valid() && WellSized(m, newBits) && setBits == 0
      modifies this
      ensures Valid() && fresh(bitmap)
      ensures bitmap[..] == m && bits == newBits && setBits == 0
    {
      bitmap := new bv8[|m|](i requires 0 <= i < |m| => m[i]);
      bits := newBits;
    }

    /** bloom_maybe */
    predicate Maybe(k: Key)
      reads this, bitmap
      requires Valid()
    {
      MaybeIn(bitmap[..], bits, k)
    }

    /** bloom_set_bit: sets the bit, counting it only if it was clear. */
    method SetBit(p: nat)
      requires Valid() && p < bits
      modifies this, bitmap
      ensures Valid() && bitmap == old(bitmap) && bits == old(bits)
      ensures bitmap[..] == WithBit(old(bitmap[..]), p)
      ensures setBits == old(setBits) + (if BitAt(old(bitmap[..]), p) then 0 else 1)
    {
      var idx := p / 8;
      var mask := Mask(p);
      ghost var m := bitmap[..];
      PopCountWithBit(m, p);
      if bitmap[idx] & mask == 0 {
        bitmap[idx] := bitmap[idx] | mask;
        setBits := setBits + 1;
        assert bitmap[..] == WithBit(m, p);
      } else {
        WithBitNoop(m, p);
      }
    }

    /** bloom_add: sets the key's three bits. */
    method Add(k: Key)
      requires Valid()
      modifies this, bitmap
      ensures Valid() && bitmap == old(bitmap) && bits == old(bits)
      ensures bitmap[..] == AddIn(old(bitmap[..]), bits, k)
      ensures setBits - old(setBits) == PopCount(bitmap[..]) - old(PopCount(bitmap[..]))
    {
      ghost var m0 := bitmap[..];
      PopCountWithBit(m0, Pos1(k, bits));
      SetBit(Pos1(k, bits));
      ghost var m1 := bitmap[..];
      PopCountWithBit(m1, Pos2(k, bits));
      SetBit(Pos2(k, bits));
      ghost var m2 := bitmap[..];
      PopCountWithBit(m2, Pos3(k, bits));
      SetBit(Pos3(k, bits));
    }

    /** The growth test of bloom_check_expand: fill >= 0.5 and below the cap. */
    predicate ShouldExpand()
      reads this
    {
      2 * setBits >= bits && bits < MAX_BITS
    }

    /**
     * The first half of bloom_expand: compute the new size and, unless the
     * filter is already at the cap, replace the bitmap by a zeroed one of that
     * size and reset the counter.  The caller then re-adds its live keys.
     */
    method Grow() returns (grew: bool)
      requires Valid() && bits <= MAX_BITS
      modifies this
      ensures Valid()
      ensures grew <==> old(bits) < MAX_BITS
      ensures grew ==> fresh(bitmap) && bits == GrownBits(old(bits)) && setBits == 0 && bitmap[..] == Zeros(bits / 8)
      ensures !grew ==> bitmap == old(bitmap) && bits == old(bits) && setBits == old(setBits)
      ensures bits <= MAX_BITS
    {
      var newBits := GrownBits(bits);
      if newBits == bits {
        return false;
      }
      assert newBits == MAX_BITS || newBits == 4 * bits;
      bitmap := new bv8[newBits / 8](_ => 0);
      bits := newBits;
      setBits := 0;
      assert bitmap[..] == Zeros(bits / 8);
      PopCountZeros(bits / 8);
      grew := true;
    }
  }

  // ===== every live key passes =====

  /** Every key of M passes the filter. */
  ghost predicate BloomHolds(m: seq<bv8>, bits: nat, M: map<Key, Value>)
  {
    WellSized(m, bits) && forall k {:trigger MaybeIn(m, bits, k)} :: k in M ==> MaybeIn(m, bits, k)
  }

  /** bloom_add of a key being bound: every key of the updated map passes the filter. */
  method AddLive(f: Filter, ghost M: map<Key, Value>, k: Key, ghost v: Value)
    requires f.Valid() && BloomHolds(f.bitmap[..], f.bits, M)
    modifies f, f.bitmap
    ensures f.Valid() && f.bitmap == old(f.bitmap) && f.bits == old(f.bits)
    ensures f.bitmap[..] == AddIn(old(f.bitmap[..]), f.bits, k)
    ensures f.setBits - old(f.setBits) == PopCount(f.bitmap[..]) - old(PopCount(f.bitmap[..]))
    ensures BloomHolds(f.bitmap[..], f.bits, M[k := v])
  {
    BloomPut(f.bitmap[..], f.bits, M, k, v);
    f.Add(k);
  }

  lemma BloomPut(m: seq<bv8>, bits: nat, M: map<Key, Value>, k: Key, v: Value)
    requires BloomHolds(m, bits, M)
    ensures BloomHolds(AddIn(m, bits, k), bits, M[k := v])
  {
    AddInProperties(m, bits, k);
    forall j | j in M ensures MaybeIn(AddIn(m, bits, k), bits, j) {
      CoversMaybe(AddIn(m, bits, k), m, bits, j);
    }
  }

  lemma BloomRemove(m: seq<bv8>, bits: nat, M: map<Key, Value>, k: Key)
    requires BloomHolds(m, bits, M)
    ensures BloomHolds(m, bits, M - {k})
  {
  }

  // ===== the filter after a put =====

  /**
   * The filter after a put stored key k, from bitmap m0 of bits0 bits with
   * counted0 bits counted: bloom_add sets the key's three bits, counting the
   * newly set ones; then, when the put runs bloom_check_expand (check) and the
   * filter is at least half full below its cap, bloom_expand grows it to a
   * zeroed bitmap and the rebuild re-adds the live keys, counting every bit it
   * sets.  Otherwise the filter is what bloom_add left.
   */
  ghost predicate PutFilter(m0: seq<bv8>, bits0: nat, counted0: nat, k: Key, check: bool, live: seq<Key>,
                            m: seq<bv8>, bits: nat, counted: nat)
    requires WellSized(m0, bits0)
  {
    var m1 := AddIn(m0, bits0, k);
    var s1 := counted0 + PopCount(m1) - PopCount(m0);
    if check && 2 * s1 >= bits0 && bits0 < MAX_BITS then
      bits == GrownBits(bits0) && WellSized(m, bits) && m == AddKeys(Zeros(bits / 8), bits, live) &&
      counted == PopCount(m)
    else
      bits == bits0 && m == m1 && counted == s1
  }

  /**
   * Helper that folds PutFilter from the outcomes of its two steps, as the
   * engines' put methods establish them (m1, s1: the bitmap and counter after
   * bloom_add).
   */
  lemma PutFilterSteps(m0: seq<bv8>, bits0: nat, counted0: nat, k: Key, check: bool, live: seq<Key>,
                       m1: seq<bv8>, s1: int, m: seq<bv8>, bits: nat, counted: nat)
    requires WellSized(m0, bits0) && m1 == AddIn(m0, bits0, k) && s1 - counted0 == PopCount(m1) - PopCount(m0)
    requires check && 2 * s1 >= bits0 && bits0 < MAX_BITS ==>
      bits == GrownBits(bits0) && WellSized(m, bits) && m == AddKeys(Zeros(bits / 8), bits, live) && counted == PopCount(m)
    requires !(check && 2 * s1 >= bits0 && bits0 < MAX_BITS) ==> bits == bits0 && m == m1 && counted == s1
    ensures PutFilter(m0, bits0, counted0, k, check, live, m, bits, counted)
  {
  }

  /**
   * A put of a key the filter already passes, with nothing counted: no bit
   * changes, the counter stays 0 and the filter does not grow.
   */
  lemma PutFilterPassing(m0: seq<bv8>, bits0: nat, k: Key, check: bool, live: seq<Key>, m: seq<bv8>, bits: nat, counted: nat)
    requires WellSized(m0, bits0) && MaybeIn(m0, bits0, k)
    requires PutFilter(m0, bits0, 0, k, check, live, m, bits, counted)
    ensures m == m0 && bits == bits0 && counted == 0
  {
    AddInNoop(m0, bits0, k);
  }
}
