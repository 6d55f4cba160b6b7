/**
 * The engine of kvs_rbtree.c: puts are appended to a write list (lines
 * 212-239); the first read after a put drains the list, oldest first, into
 * a red-black tree ordered by strcmp (kvs_compact, lines 242-259), where a
 * key already present has its value overwritten.  Reads search the tree.
 *
 * The list is the sequence of its entries from write_head to write_tail.
 * The ghost field `puts` is every successful put in order; the tree plus the
 * list always stand for the last value put under each key.
 */
module WriteListKvs {
  import opened Keys
  import opened Wrappers
  import opened Arena
  import opened BPlusTree
  import opened BPlusTreeProofs
  import opened BPlusTreeWalk
  import opened RedBlack

  /** sizeof(ListEntry) on LP64: two pointers, two uint32_t and a pointer. */
  const LIST_ENTRY_SIZE: nat := 32

  /** Putting pairs one by one never binds more keys than there are pairs. */
  lemma {:induction false} PairsMapCard(P: seq<(Key, Value)>)
    ensures |PairsMap(P)| <= |P|
    decreases |P|
  {
    if |P| > 0 {
      var m := PairsMap(P[..|P| - 1]);
      PairsMapCard(P[..|P| - 1]);
      assert |m[P[|P| - 1].0 := P[|P| - 1].1]| <= |m| + 1;
    }
  }

  /** The list after one more append: the new binding is the latest one. */
  lemma AppendLive(F: seq<Entry>, e: Entry)
    requires !e.deleted
    ensures LiveMap(F + [e]) == LiveMap(F)[e.key := e.value]
  {
    LiveMapAppend(F, [e]);
    LiveMapOne(e);
  }

  lemma PairsMapSnoc(P: seq<(Key, Value)>, k: Key, v: Value)
    ensures PairsMap(P + [(k, v)]) == PairsMap(P)[k := v]
  {
    assert (P + [(k, v)])[..|P|] == P;
  }

  /** What Put needs of the list after an append of one more C-string pair. */
  lemma Appended(T: seq<Entry>, L: seq<Entry>, P: seq<(Key, Value)>, key: seq<byte>, value: seq<byte>)
    requires CStrEntries(L) && LiveMap(T + L) == PairsMap(P)
    ensures CStrEntries(L + [Entry(CStr(key), CStr(value), false)])
    ensures LiveMap(T + (L + [Entry(CStr(key), CStr(value), false)])) == PairsMap(P + [(CStr(key), CStr(value))])
    ensures PairsMap(P + [(CStr(key), CStr(value))]) == PairsMap(P)[CStr(key) := CStr(value)]
  {
    var e := Entry(CStr(key), CStr(value), false);
    CStrIsNulFree(key);
    AppendLive(T + L, e);
    PairsMapSnoc(P, e.key, e.value);
    assert T + (L + [e]) == T + L + [e];
  }

  class Kvs {
    const pool: Pool
    var list: seq<Entry>
    var writeCount: nat
    var tree: Tree
    var compacted: bool
    var totalCount: nat

    /** Every successful put, oldest first. */
    ghost var puts: seq<(Key, Value)>

    /** The key/value map a read observes: the last put of each key. */
    ghost function Contents(): map<Key, Value>
      reads this
    {
      PairsMap(puts)
    }

    /**
     * The tree is red-black and strictly ordered; list and tree hold
     * C-string entries; write_count is the list length; a compacted store
     * has an empty list; the tree's entries followed by the list's give the
     * last put of each key; total_count counts every put.
     */
    ghost predicate Valid()
      reads this, pool
    {
      pool.Valid() && pool.size == POOL_SIZE &&
      IsRBTree(tree) && CStrEntries(Inorder(tree)) && CStrEntries(list) &&
      writeCount == |list| && (compacted ==> list == []) &&
      LiveMap(Inorder(tree) + list) == PairsMap(puts) &&
      totalCount == |puts|
    }

    /** kvs_open: an empty list, an empty tree, not compacted, nothing counted. */
    constructor ()
      ensures Valid() && fresh(pool) && pool.pos == 0
      ensures list == [] && tree == Nil && !compacted && totalCount == 0 && Contents() == map[]
    {
      pool := new Pool(POOL_SIZE);
      list := [];
      writeCount := 0;
      tree := Nil;
      compacted := false;
      totalCount := 0;
      puts := [];
      new;
      assert Inorder(tree) + list == [];
    }

    /**
     * kvs_put: three pool allocations, all made before any is checked; -1 if
     * one failed, with list, tree and counters untouched; otherwise the pair
     * of C strings is appended at the tail, both counters grow and the store
     * needs compacting again.
     */
    method Put(key: seq<byte>, value: seq<byte>) returns (r: int)
      requires Valid()
      modifies this, pool
      ensures Valid() && tree == old(tree)
      ensures r == 0 || r == -1
      ensures var a := AllocThree(old(pool.pos), POOL_SIZE, LIST_ENTRY_SIZE, |CStr(key)| + 1, |CStr(value)| + 1);
        (r == 0 <==> a.0) && pool.pos == a.1
      ensures r == 0 ==>
        list == old(list) + [Entry(CStr(key), CStr(value), false)] && puts == old(puts) + [(CStr(key), CStr(value))] &&
        writeCount == old(writeCount) + 1 && totalCount == old(totalCount) + 1 && !compacted
      ensures r == 0 ==> Contents() == old(Contents())[CStr(key) := CStr(value)]
      ensures r == -1 ==>
        list == old(list) && puts == old(puts) && writeCount == old(writeCount) &&
        totalCount == old(totalCount) && compacted == old(compacted)
    {
      var ok := AllocPut(pool, LIST_ENTRY_SIZE, |CStr(key)| + 1, |CStr(value)| + 1);
      if !ok {
        return -1;
      }
      Append(key, value);
      r := 0;
    }

    /** The rest of kvs_put once the allocations succeeded: link the entry at the tail. */
    method Append(key: seq<byte>, value: seq<byte>)
      requires Valid()
      modifies this
      ensures Valid() && tree == old(tree)
      ensures list == old(list) + [Entry(CStr(key), CStr(value), false)] && puts == old(puts) + [(CStr(key), CStr(value))]
      ensures writeCount == old(writeCount) + 1 && totalCount == old(totalCount) + 1 && !compacted
      ensures Contents() == old(Contents())[CStr(key) := CStr(value)]
    {
      var e := Entry(CStr(key), CStr(value), false);
      Appended(Inorder(tree), list, puts, key, value);
      list := list + [e];
      writeCount := writeCount + 1;
      totalCount := totalCount + 1;
      compacted := false;
      puts := puts + [(e.key, e.value)];
    }

    /**
     * kvs_compact: nothing when already compacted or the list is empty;
     * otherwise the list is drained into the tree, emptied, write_count reset
     * and the store marked compacted.  What a read observes is unchanged, and
     * the tree then holds each distinct key put once.
     */
    method Compact()
      requires Valid()
      modifies this
      ensures Valid() && Contents() == old(Contents()) && puts == old(puts) && totalCount == old(totalCount)
      ensures list == [] && writeCount == 0
      ensures old(compacted) || old(list) == [] ==> tree == old(tree) && compacted == old(compacted)
      ensures !old(compacted) && old(list) != [] ==> compacted
      ensures LiveMap(Inorder(tree)) == Contents() && |Inorder(tree)| == |Contents()| <= totalCount
    {
      if compacted || list == [] {
        assert Inorder(tree) + list == Inorder(tree);
        TreeCard(tree);
        PairsMapCard(puts);
        return;
      }
      // the while loop of kvs_compact: rbtree_insert of each entry from write_head on
      tree := InsertAll(tree, list);
      list := [];
      writeCount := 0;
      compacted := true;
      assert Inorder(tree) + list == Inorder(tree);
      TreeCard(tree);
      PairsMapCard(puts);
    }

    /**
     * kvs_get: compact first unless compacted, then rbtree_search with the
     * probe as a C string: the value of the latest put of that key, or NULL
     * (None) if it was never put.
     */
    method Get(key: seq<byte>) returns (r: Option<Value>)
      requires Valid()
      modifies this
      ensures Valid() && Contents() == old(Contents()) && list == []
      ensures r == if CStr(key) in Contents() then Some(Contents()[CStr(key)]) else None
    {
      if !compacted {
        Compact();
      }
      assert Inorder(tree) + list == Inorder(tree);
      r := SearchValue(tree, key);
    }
  }

  /** A tree of C-string entries has one binding per node. */
  lemma TreeCard(t: Tree)
    requires IsRBTree(t) && CStrEntries(Inorder(t))
    ensures |LiveMap(Inorder(t))| == |Inorder(t)|
  {
    LiveMapCard(Inorder(t));
    CStrPairs(Inorder(t));
  }
}
