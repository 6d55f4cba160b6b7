/**
 * The cursor of b+tree/kvs.c (struct KVSCursor at lines 56-60, operations at
 * lines 468-550) and kvs_range (lines 644-668), which is built on it.  The
 * cursor's node is a position in the leaf chain Leaves(db.root), None for
 * NULL; next and prev links are the neighbouring positions.
 */
module BPlusTreeCursor {
  import opened Keys
  import opened Wrappers
  import opened BPlusTree
  import opened BPlusTreeProofs
  import opened BPlusTreeLeaves
  import opened BPlusTreeWalk
  import opened BPlusTreeScan
  import opened BPlusTreeKvs
  import Seqs

  // ===== cursor states on the leaf chain =====

  /** Every leaf holds an entry, unless the root leaf is the only leaf. */
  ghost predicate Threaded(L: seq<seq<Entry>>)
  {
    |L| >= 1 && (|L| == 1 || forall i :: 0 <= i < |L| ==> |L[i]| > 0)
  }

  /**
   * The states the operations leave a cursor in: on a leaf, the index is a
   * slot of it, or -1 or 0 when the leaf is empty.  A NULL node may carry
   * any index.
   */
  ghost predicate FitsIn(L: seq<seq<Entry>>, leaf: Option<nat>, index: int)
  {
    leaf.Some? ==>
      leaf.value < |L| && (if |L[leaf.value]| == 0 then -1 <= index <= 0 else 0 <= index < |L[leaf.value]|)
  }

  /** kvs_cursor_valid: a node, and an index inside it. */
  predicate ValidAt(L: seq<seq<Entry>>, leaf: Option<nat>, index: int)
  {
    leaf.Some? && leaf.value < |L| && 0 <= index < |L[leaf.value]|
  }

  /** The slot of the flattened chain the cursor is on, or its length when it is on none. */
  ghost function PosIn(L: seq<seq<Entry>>, leaf: Option<nat>, index: int): (r: nat)
    ensures r <= |Flat(L)|
  {
    if ValidAt(L, leaf, index) then FlatIndex(L, leaf.value, index); Off(L, leaf.value) + index else |Flat(L)|
  }

  /** A cursor on a slot is on an entry of the flattened chain, and that entry is the slot's. */
  lemma PosInBounds(L: seq<seq<Entry>>, leaf: Option<nat>, index: int)
    ensures ValidAt(L, leaf, index) <==> PosIn(L, leaf, index) < |Flat(L)|
    ensures ValidAt(L, leaf, index) ==> Flat(L)[PosIn(L, leaf, index)] == L[leaf.value][index]
  {
    if ValidAt(L, leaf, index) {
      FlatIndex(L, leaf.value, index);
    }
  }

  /** Off past the last leaf is the length of the chain. */
  lemma OffEnd(L: seq<seq<Entry>>)
    ensures Off(L, |L|) == |Flat(L)|
  {
    assert L[..|L|] == L;
  }

  /** The do-body of kvs_cursor_next, from a state on a leaf, moves one slot along the chain. */
  lemma AdvanceStep(L: seq<seq<Entry>>, li: nat, index: int)
    requires Threaded(L) && FitsIn(L, Some(li), index)
    ensures var (leaf2, index2) := if index + 1 >= |L[li]| then (if li + 1 < |L| then Some(li + 1) else None, 0) else (Some(li), index + 1);
      FitsIn(L, leaf2, index2) &&
      PosIn(L, leaf2, index2) == if PosIn(L, Some(li), index) < |Flat(L)| then PosIn(L, Some(li), index) + 1 else |Flat(L)|
  {
    PosInBounds(L, Some(li), index);
    if index + 1 >= |L[li]| {
      FlatLength(L, li);
      if li + 1 < |L| {
        assert |L[li + 1]| > 0;
      } else {
        OffEnd(L);
      }
    }
  }

  /** The do-body of kvs_cursor_prev, from a state on a slot, moves one slot back, or off the front. */
  lemma RetreatStep(L: seq<seq<Entry>>, li: nat, index: int)
    requires Threaded(L) && ValidAt(L, Some(li), index)
    ensures var (leaf2, index2) := if index - 1 < 0 then (if li > 0 then (Some(li - 1), |L[li - 1]| - 1) else (None, -1)) else (Some(li), index - 1);
      FitsIn(L, leaf2, index2) &&
      (leaf2.Some? ==> ValidAt(L, leaf2, index2) && PosIn(L, leaf2, index2) + 1 == PosIn(L, Some(li), index)) &&
      (leaf2.None? ==> PosIn(L, Some(li), index) == 0)
  {
    if index == 0 {
      if li > 0 {
        assert |L[li - 1]| > 0;
        FlatLength(L, li - 1);
      } else {
        assert L[..0] == [];
      }
    }
  }

  /** kvs_cursor_seek's landing: on slot pos of leaf li, or at index 0 of the next leaf when pos is past its end. */
  lemma SeekStep(L: seq<seq<Entry>>, li: nat, pos: nat)
    requires Threaded(L) && li < |L| && pos <= |L[li]|
    ensures var (leaf2, index2) := if pos >= |L[li]| then (if li + 1 < |L| then Some(li + 1) else None, 0) else (Some(li), pos);
      FitsIn(L, leaf2, index2) && PosIn(L, leaf2, index2) == Off(L, li) + pos
  {
    if pos >= |L[li]| {
      FlatLength(L, li);
      OffEnd(L);
      if li + 1 < |L| {
        assert |L[li + 1]| > 0;
      }
    }
  }

  /** kvs_cursor_last's start: the last slot of the last leaf, which is the last slot of the chain, or index -1 on an empty chain. */
  lemma LastStep(L: seq<seq<Entry>>)
    requires Threaded(L)
    ensures var index := |L[|L| - 1]| - 1;
      FitsIn(L, Some(|L| - 1), index) &&
      (index >= 0 ==> ValidAt(L, Some(|L| - 1), index) && PosIn(L, Some(|L| - 1), index) == |Flat(L)| - 1) &&
      (index < 0 ==> |Flat(L)| == 0)
  {
    FlatLength(L, |L| - 1);
    OffEnd(L);
    if |L[|L| - 1]| == 0 {
      assert |L| == 1;
      assert L[..0] == [];
    }
  }

  class Cursor {
    const db: Kvs
    var leaf: Option<nat>
    var index: int

    /** The entries the cursor walks over: the leaf chain, flattened. */
    ghost function Entries(): seq<Entry>
      reads this, db
    {
      Flat(Leaves(db.root))
    }

    /** The cursor is in one of the states its operations leave, on a chain whose leaves are threaded. */
    ghost predicate Fits()
      reads this, db
    {
      Threaded(Leaves(db.root)) && FitsIn(Leaves(db.root), leaf, index)
    }

    /** The slot of Entries() the cursor is on, or |Entries()| when it is on none. */
    ghost function Here(): nat
      reads this, db
    {
      PosIn(Leaves(db.root), leaf, index)
    }

    /** kvs_cursor_new: no node, index 0. */
    constructor (db: Kvs)
      requires db.Valid()
      ensures this.db == db && leaf.None? && index == 0
      ensures Fits() && Here() == |Entries()|
    {
      LeafSizes(db.root, db.height);
      this.db := db;
      leaf := None;
      index := 0;
    }

    /** kvs_cursor_valid: the cursor is on an entry. */
    function IsValid(): (r: bool)
      reads this, db
      ensures r <==> Here() < |Entries()|
    {
      PosInBounds(Leaves(db.root), leaf, index);
      ValidAt(Leaves(db.root), leaf, index)
    }

    /** kvs_cursor_key: the key of the entry the cursor is on, NULL (None) when it is on none. */
    function KeyAt(): (r: Option<Key>)
      reads this, db
      ensures r.Some? <==> Here() < |Entries()|
      ensures r.Some? ==> r.value == Entries()[Here()].key
    {
      PosInBounds(Leaves(db.root), leaf, index);
      if ValidAt(Leaves(db.root), leaf, index) then Some(Leaves(db.root)[leaf.value][index].key) else None
    }

    /** kvs_cursor_value: the value of the entry the cursor is on, NULL (None) when it is on none. */
    function ValueAt(): (r: Option<Value>)
      reads this, db
      ensures r.Some? <==> Here() < |Entries()|
      ensures r.Some? ==> r.value == Entries()[Here()].value
    {
      PosInBounds(Leaves(db.root), leaf, index);
      if ValidAt(Leaves(db.root), leaf, index) then Some(Leaves(db.root)[leaf.value][index].value) else None
    }

    /** Whether the cursor is on a tombstone: the test of the skipping loops. */
    function OnTombstone(): (r: bool)
      reads this, db
      ensures r <==> Here() < |Entries()| && Entries()[Here()].deleted
    {
      PosInBounds(Leaves(db.root), leaf, index);
      ValidAt(Leaves(db.root), leaf, index) && Leaves(db.root)[leaf.value][index].deleted
    }

    /** The do-body of kvs_cursor_next: index++, and on to the next leaf at index 0 past the last slot. */
    method Advance()
      requires Fits() && leaf.Some?
      modifies this
      ensures Fits() && Here() == if old(Here()) < |Entries()| then old(Here()) + 1 else |Entries()|
    {
      AdvanceStep(Leaves(db.root), leaf.value, index);
      index := index + 1;
      if index >= |Leaves(db.root)[leaf.value]| {
        leaf := if leaf.value + 1 < |Leaves(db.root)| then Some(leaf.value + 1) else None;
        index := 0;
      }
    }

    /**
     * The do-body of kvs_cursor_prev: index--, and back to the last slot of
     * the previous leaf below slot 0 (NULL, index -1, before the first leaf).
     */
    method Retreat()
      requires Fits() && IsValid()
      modifies this
      ensures Fits()
      ensures leaf.Some? ==> IsValid() && Here() + 1 == old(Here())
      ensures leaf.None? ==> index == -1 && old(Here()) == 0
    {
      RetreatStep(Leaves(db.root), leaf.value, index);
      index := index - 1;
      if index < 0 {
        leaf := if leaf.value > 0 then Some(leaf.value - 1) else None;
        if leaf.Some? {
          index := |Leaves(db.root)[leaf.value]| - 1;
        }
      }
    }

    /**
     * kvs_cursor_next: nothing without a node; otherwise step, and keep
     * stepping over tombstones.  The cursor lands on the first live slot
     * after the one it was on.
     */
    method Next() returns (r: bool)
      requires Fits()
      modifies this
      ensures Fits() && (r <==> Here() < |Entries()|)
      ensures old(leaf).None? ==> !r && leaf == old(leaf) && index == old(index)
      ensures old(leaf).Some? ==> Here() == NextLive(Entries(), if old(Here()) < |Entries()| then old(Here()) + 1 else |Entries()|)
    {
      if leaf.None? {
        return false;
      }
      Advance();
      ghost var target := NextLive(Entries(), Here());
      while leaf.Some? && OnTombstone()
        invariant Fits() && NextLive(Entries(), Here()) == target
        decreases |Entries()| - Here()
      {
        Advance();
      }
      r := IsValid();
    }

    /**
     * kvs_cursor_prev: nothing without a node; otherwise step back, and keep
     * stepping back over tombstones.  From a slot, the cursor lands on the
     * last live slot before it, or on no node (index -1) when there is none.
     */
    method Prev() returns (r: bool)
      requires Fits()
      modifies this
      ensures Fits() && (r <==> Here() < |Entries()|)
      ensures old(leaf).None? ==> !r && leaf == old(leaf) && index == old(index)
      ensures old(leaf).Some? && old(Here()) == |Entries()| ==> !r && leaf.None?
      ensures old(Here()) < |Entries()| ==>
        (r <==> PrevLive(Entries(), old(Here()) - 1) >= 0) &&
        (r ==> Here() == PrevLive(Entries(), old(Here()) - 1)) &&
        (!r ==> leaf.None? && index == -1)
    {
      if leaf.None? {
        return false;
      }
      if !IsValid() {
        // the only leaf is empty: index-- leaves slot range, and there is no previous leaf
        index := index - 1;
        leaf := None;
        return false;
      }
      ghost var target := PrevLive(Entries(), Here() - 1);
      Retreat();
      while leaf.Some? && OnTombstone()
        invariant Fits() && (leaf.Some? ==> IsValid()) && (leaf.None? ==> index == -1)
        invariant PrevLive(Entries(), if leaf.Some? then Here() else -1) == target
        decreases if leaf.Some? then Here() + 1 else 0
      {
        Retreat();
      }
      r := IsValid();
    }

    /** kvs_cursor_first: first_leaf at index 0, then next past tombstones: the first live slot. */
    method First() returns (r: bool)
      requires db.Valid()
      modifies this
      ensures Fits() && (r <==> Here() < |Entries()|)
      ensures Here() == NextLive(Entries(), 0)
    {
      LeafSizes(db.root, db.height);
      leaf, index := Some(0), 0;
      assert Here() == 0 by {
        if |Leaves(db.root)[0]| == 0 {
          FlatLength(Leaves(db.root), 0);
          assert Leaves(db.root)[..0] == [];
          OffEnd(Leaves(db.root));
        }
        assert Leaves(db.root)[..0] == [];
      }
      while leaf.Some? && OnTombstone()
        invariant Fits() && NextLive(Entries(), Here()) == NextLive(Entries(), 0)
        decreases |Entries()| - Here()
      {
        var _ := Next();
      }
      r := IsValid();
    }

    /** The descent of kvs_cursor_last: the last child down to a leaf, and its last slot. */
    method ToLastSlot()
      requires db.Valid()
      modifies this
      ensures Fits() && (index >= 0 ==> IsValid() && Here() == |Entries()| - 1)
      ensures index < 0 ==> index == -1 && |Entries()| == 0
    {
      LeafSizes(db.root, db.height);
      var es := LastLeaf(db.root);
      LastStep(Leaves(db.root));
      leaf, index := Some(|Leaves(db.root)| - 1), |es| - 1;
    }

    /**
     * kvs_cursor_last: descend to the last leaf, take its last slot, then
     * prev past tombstones: the last live slot.
     */
    method Last() returns (r: bool)
      requires db.Valid()
      modifies this
      ensures Fits() && (r <==> Here() < |Entries()|)
      ensures r <==> PrevLive(Entries(), |Entries()| - 1) >= 0
      ensures r ==> Here() == PrevLive(Entries(), |Entries()| - 1)
    {
      ToLastSlot();
      ghost var target := PrevLive(Entries(), |Entries()| - 1);
      while index >= 0 && OnTombstone()
        invariant Fits() && (index >= 0 ==> IsValid()) && (leaf.None? ==> index == -1)
        invariant PrevLive(Entries(), if index >= 0 then Here() else -1) == target
        decreases if index >= 0 then Here() + 1 else 0
      {
        var _ := Prev();
      }
      r := IsValid();
    }

    /**
     * kvs_cursor_seek: find_leaf and leaf_find_pos; past the leaf's last slot,
     * on to the next leaf at index 0.  The cursor lands on the lower bound of
     * the key, tombstone or not.
     */
    method Seek(key: Key) returns (r: bool)
      requires db.Valid()
      modifies this
      ensures Fits() && (r <==> Here() < |Entries()|)
      ensures Here() == LowerBound(Entries(), key)
    {
      LeafSizes(db.root, db.height);
      SeekOffset(db.root, db.height, key);
      var es, li := FindLeaf(db.root, db.height, key);
      LeafSorted(db.root, db.height, li);
      var pos := LeafFindPos(es, key);
      SeekStep(Leaves(db.root), li, pos);
      leaf, index := Some(li), pos;
      if index >= |es| {
        leaf := if li + 1 < |Leaves(db.root)| then Some(li + 1) else None;
        index := 0;
      }
      r := IsValid();
    }
  }

  // ===== kvs_range =====

  /** One report of kvs_range's loop. */
  lemma RangeStep(F: seq<Entry>, g: nat, hi: Key)
    requires g < |F| && KeyCmp(F[g].key, hi) <= 0
    ensures RangeFrom(F, g, hi) == [(F[g].key, F[g].value)] + RangeFrom(F, NextLive(F, g + 1), hi)
  {
  }

  /**
   * kvs_range as written: seek to `from`, then report entries while the key
   * is not above `to`, stepping with kvs_cursor_next.  The entry seek lands on
   * is reported even when it is a tombstone.
   */
  method Range(db: Kvs, from: seq<byte>, to: seq<byte>) returns (visited: seq<(Key, Value)>, n: nat)
    requires db.Valid()
    ensures visited == RangeFrom(Chain(db.root), LowerBound(Chain(db.root), CStr(from)), CStr(to))
    ensures n == |visited|
  {
    FlatLeaves(db.root);
    var hi := CStr(to);
    var cur := new Cursor(db);
    var _ := cur.Seek(CStr(from));
    visited, n := RangeLoop(cur, hi);
  }

  /**
   * kvs_range with the tombstone check kvs_cursor_first makes: after the seek,
   * step off a deleted entry before reporting.  It reports exactly the live
   * pairs whose keys lie in [from, to], in ascending order.
   */
  method RangeLive(db: Kvs, from: seq<byte>, to: seq<byte>) returns (visited: seq<(Key, Value)>, n: nat)
    requires db.Valid()
    ensures visited == LiveBetween(Chain(db.root), CStr(from), CStr(to))
    ensures n == |visited|
  {
    FlatLeaves(db.root);
    ChainInBounds(db.root, None, None);
    var lo, hi := CStr(from), CStr(to);
    var cur := new Cursor(db);
    var _ := cur.Seek(lo);
    if cur.OnTombstone() {
      var _ := cur.Next();
    }
    RangeLiveIsBetween(Chain(db.root), lo, hi);
    visited, n := RangeLoop(cur, hi);
  }

  /** The loop of kvs_range: report and step while the cursor is on an entry whose key is not above hi. */
  method RangeLoop(cur: Cursor, hi: Key) returns (visited: seq<(Key, Value)>, n: nat)
    requires cur.Fits()
    modifies cur
    ensures visited == RangeFrom(old(cur.Entries()), old(cur.Here()), hi) && n == |visited|
  {
    ghost var F, start := cur.Entries(), cur.Here();
    visited, n := [], 0;
    while cur.IsValid()
      invariant cur.Fits() && cur.Entries() == F
      invariant visited + RangeFrom(F, cur.Here(), hi) == RangeFrom(F, start, hi) && n == |visited|
      decreases |F| - cur.Here()
    {
      var k := cur.KeyAt().value;
      if KeyCmp(k, hi) > 0 {
        break;
      }
      var v := cur.ValueAt().value;
      ghost var g := cur.Here();
      RangeStep(F, g, hi);
      Seqs.Associative(visited, [(k, v)], RangeFrom(F, NextLive(F, g + 1), hi));
      visited := visited + [(k, v)];
      n := n + 1;
      var _ := cur.Next();
    }
  }
}
