/**
 * The KVS handle of b+tree/kvs.c (struct at lines 37-53) and its public
 * operations.  The tree is the value `root`; db->first_leaf is the first leaf
 * of Leaves(root) and is not stored apart.  db->pool is the Pool, the bloom
 * fields the Filter.
 */
module BPlusTreeKvs {
  import opened Keys
  import opened Wrappers
  import opened Arena
  import opened Bloom
  import opened BPlusTree
  import opened BPlusTreeProofs
  import opened BPlusTreeInsert
  import opened BPlusTreeLeaves
  import opened BPlusTreeWalk
  import opened BPlusTreeFile
  import opened LittleEndian
  import Status
  import Seqs

  /** sizeof(Entry) on LP64: two pointers, two uint32_t and a flag byte, padded to 32. */
  const ENTRY_SIZE: nat := 32

  /** kvs_put_raw checks the bloom filter for growth every this many entries. */
  const EXPAND_EVERY: nat := 1000

  /** The least pool space one stored entry takes: its Entry and two NUL-terminated copies. */
  const MIN_PUT_SPACE: nat := 48

  /** What kvs_stats fills in; the fill rate is given as its two integer parts. */
  datatype Stats = Stats(count: nat, memoryUsed: nat, bloomBits: nat, bloomSetBits: nat, treeHeight: nat, nodeCount: nat)

  class Kvs {
    var root: Node
    var height: nat
    var count: nat
    var nodeCount: nat
    const pool: Pool
    const bloom: Filter
    const filepath: Option<seq<byte>>

    /** The live key/value map: what get, exists and the iterators observe. */
    ghost function Contents(): map<Key, Value>
      reads this
    {
      LiveMap(Chain(root))
    }

    /**
     * The invariant between operations: the tree invariant at db->height;
     * db->node_count is the number of nodes and db->count the number of live
     * keys; every entry's key and value were copied into the pool, which
     * therefore holds at least MIN_PUT_SPACE bytes per entry; and every live
     * key passes the bloom filter, which is what lets get, exists and delete
     * answer "absent" early.
     */
    ghost predicate Valid()
      reads this, pool, bloom, bloom.bitmap
    {
      TreeState(root, height, nodeCount, count, pool.pos) &&
      pool.Valid() && pool.size == POOL_SIZE &&
      bloom.Valid() && bloom.bits < Pow256(8) &&
      BloomHolds(bloom.bitmap[..], bloom.bits, Contents())
    }

    /** kvs_open: an empty root leaf, height 1, one node, an empty filter and pool. */
    constructor (path: Option<seq<byte>>)
      ensures Valid() && fresh(pool) && fresh(bloom) && fresh(bloom.bitmap)
      ensures Contents() == map[] && height == 1 && nodeCount == 1 && filepath == path
      ensures pool.pos == 0 && bloom.setBits == 0
    {
      root := Leaf([]);
      height := 1;
      count := 0;
      nodeCount := 1;
      pool := new Pool(POOL_SIZE);
      bloom := new Filter();
      filepath := path;
    }

    /**
     * kvs_put_raw: three pool allocations, all made before any is checked;
     * NOMEM if one failed, with the tree and filter untouched.  Otherwise the
     * key goes into the filter and the tree, count grows when the key was not
     * live, and the filter is as PutFilter says: the key's bits set, then
     * the periodic growth check.
     */
    method PutRaw(key: Key, value: Value) returns (r: int)
      requires Valid()
      modifies this, pool, bloom, bloom.bitmap
      ensures Valid()
      ensures r == Status.OK || r == Status.NOMEM
      ensures var a := AllocThree(old(pool.pos), POOL_SIZE, ENTRY_SIZE, |key| + 1, |value| + 1);
        (r == Status.OK <==> a.0) && pool.pos == a.1
      ensures r == Status.OK ==> Contents() == old(Contents())[key := value]
      ensures r == Status.OK ==>
        PutFilter(old(bloom.bitmap[..]), old(bloom.bits), old(bloom.setBits), key, count % EXPAND_EVERY == 0, LiveKeys(Chain(root)),
                  bloom.bitmap[..], bloom.bits, bloom.setBits)
      ensures r == Status.NOMEM ==>
        root == old(root) && count == old(count) && bloom.bits == old(bloom.bits) &&
        bloom.bitmap == old(bloom.bitmap) && bloom.bitmap[..] == old(bloom.bitmap[..]) && bloom.setBits == old(bloom.setBits)
      ensures bloom.bitmap == old(bloom.bitmap) || fresh(bloom.bitmap)
    {
      ghost var used, m0, bits0, counted0 := pool.pos, bloom.bitmap[..], bloom.bits, bloom.setBits;
      var ok := AllocPut(pool, ENTRY_SIZE, |key| + 1, |value| + 1);
      if !ok {
        return Status.NOMEM;
      }
      Insert(key, value, used);
      Expand(key, m0, bits0, counted0);
      r := Status.OK;
    }

    /**
     * The end of kvs_put_raw, once bloom_add set the bits of k in bitmap m0
     * of bits0 bits with counted0 bits counted: the check every EXPAND_EVERY
     * entries, after which the filter is as PutFilter says.
     */
    method Expand(ghost k: Key, ghost m0: seq<bv8>, ghost bits0: nat, ghost counted0: nat)
      requires Valid() && WellSized(m0, bits0)
      requires bloom.bits == bits0 && bloom.bitmap[..] == AddIn(m0, bits0, k)
      requires bloom.setBits - counted0 == PopCount(bloom.bitmap[..]) - PopCount(m0)
      modifies bloom
      ensures Valid() && root == old(root) && count == old(count)
      ensures PutFilter(m0, bits0, counted0, k, count % EXPAND_EVERY == 0, LiveKeys(Chain(root)),
                        bloom.bitmap[..], bloom.bits, bloom.setBits)
      ensures bloom.bitmap == old(bloom.bitmap) || fresh(bloom.bitmap)
    {
      ghost var m1, s1 := bloom.bitmap[..], bloom.setBits;
      if count % EXPAND_EVERY == 0 {
        CheckExpand();
      }
      PutFilterSteps(m0, bits0, counted0, k, count % EXPAND_EVERY == 0, LiveKeys(Chain(root)),
                     m1, s1, bloom.bitmap[..], bloom.bits, bloom.setBits);
    }

    /**
     * The part of kvs_put_raw after the allocations succeeded: bloom_add,
     * then the insert into the tree (the periodic filter check follows).  The
     * pool has grown by at least MIN_PUT_SPACE since the state was `used`.
     */
    method Insert(key: Key, value: Value, ghost used: nat)
      requires TreeState(root, height, nodeCount, count, used) && used + MIN_PUT_SPACE <= pool.pos
      requires |key| < POOL_SIZE && |value| < POOL_SIZE
      requires pool.Valid() && pool.size == POOL_SIZE && bloom.Valid() && bloom.bits < Pow256(8)
      requires BloomHolds(bloom.bitmap[..], bloom.bits, Contents())
      modifies this, bloom, bloom.bitmap
      ensures Valid() && Contents() == old(Contents())[key := value]
      ensures bloom.bitmap == old(bloom.bitmap) && pool.pos == old(pool.pos) && bloom.bits == old(bloom.bits)
      ensures bloom.bitmap[..] == AddIn(old(bloom.bitmap[..]), bloom.bits, key)
      ensures bloom.setBits - old(bloom.setBits) == PopCount(bloom.bitmap[..]) - old(PopCount(bloom.bitmap[..]))
    {
      var root2, height2, nodes2, count2 := PutTree(root, height, nodeCount, count, used, pool.pos, Entry(key, value, false));
      AddLive(bloom, Contents(), key, value);
      root, height, nodeCount, count := root2, height2, nodes2, count2;
    }

    /** kvs_put: both arguments are C strings. */
    method Put(key: seq<byte>, value: seq<byte>) returns (r: int)
      requires Valid()
      modifies this, pool, bloom, bloom.bitmap
      ensures Valid()
      ensures r == Status.OK || r == Status.NOMEM
      ensures var a := AllocThree(old(pool.pos), POOL_SIZE, ENTRY_SIZE, |CStr(key)| + 1, |CStr(value)| + 1);
        (r == Status.OK <==> a.0) && pool.pos == a.1
      ensures r == Status.OK ==> Contents() == old(Contents())[CStr(key) := CStr(value)]
      ensures r == Status.OK ==>
        PutFilter(old(bloom.bitmap[..]), old(bloom.bits), old(bloom.setBits), CStr(key), count % EXPAND_EVERY == 0,
                  LiveKeys(Chain(root)), bloom.bitmap[..], bloom.bits, bloom.setBits)
      ensures r == Status.NOMEM ==>
        root == old(root) && count == old(count) && bloom.bits == old(bloom.bits) &&
        bloom.bitmap == old(bloom.bitmap) && bloom.bitmap[..] == old(bloom.bitmap[..]) && bloom.setBits == old(bloom.setBits)
      ensures bloom.bitmap == old(bloom.bitmap) || fresh(bloom.bitmap)
    {
      var k, v := CStr(key), CStr(value);
      ghost var a := AllocThree(pool.pos, POOL_SIZE, ENTRY_SIZE, |k| + 1, |v| + 1);
      r := PutRaw(k, v);
      assert (r == Status.OK <==> a.0) && pool.pos == a.1;
    }

    /**
     * bloom_check_expand: once the filter is at least half full and below its
     * cap, bloom_expand gives it a zeroed bitmap four times larger (at most
     * the cap) and bloom_rebuild re-adds every live key.
     */
    method CheckExpand()
      requires Valid()
      modifies bloom
      ensures Valid() && root == old(root) && count == old(count)
      ensures old(bloom.ShouldExpand()) ==>
        bloom.bits == GrownBits(old(bloom.bits)) &&
        bloom.bitmap[..] == AddKeys(Zeros(bloom.bits / 8), bloom.bits, LiveKeys(Chain(root))) &&
        bloom.setBits == PopCount(bloom.bitmap[..])
      ensures !old(bloom.ShouldExpand()) ==>
        bloom.bitmap == old(bloom.bitmap) && bloom.bits == old(bloom.bits) && bloom.setBits == old(bloom.setBits)
      ensures bloom.bitmap == old(bloom.bitmap) || fresh(bloom.bitmap)
    {
      if bloom.ShouldExpand() {
        var grew := bloom.Grow();
        Refill();
      }
    }

    /** The rest of bloom_expand: bloom_rebuild re-adds every live key to the zeroed bitmap. */
    method Refill()
      requires TreeState(root, height, nodeCount, count, pool.pos) && pool.Valid() && pool.size == POOL_SIZE
      requires bloom.Valid() && bloom.bits <= MAX_BITS && bloom.setBits == 0 && bloom.bitmap[..] == Zeros(bloom.bits / 8)
      modifies bloom, bloom.bitmap
      ensures Valid() && bloom.bitmap == old(bloom.bitmap) && bloom.bits == old(bloom.bits)
      ensures bloom.bitmap[..] == AddKeys(Zeros(bloom.bits / 8), bloom.bits, LiveKeys(Chain(root)))
      ensures bloom.setBits == PopCount(bloom.bitmap[..])
    {
      Pow256Values();
      ghost var m0 := bloom.bitmap[..];
      PopCountZeros(bloom.bits / 8);
      Rebuild(bloom, Leaves(root));
      FlatLeaves(root);
      RebuiltHolds(m0, bloom.bits, Chain(root));
    }

    /**
     * kvs_get_raw: NULL (None) when the filter rules the key out; otherwise
     * find_leaf and leaf_find_pos, and the value if the slot holds the key
     * and is not a tombstone.
     */
    method GetRaw(key: Key) returns (r: Option<Value>)
      requires Valid()
      ensures r == if key in Contents() then Some(Contents()[key]) else None
    {
      if !bloom.Maybe(key) {
        return None;
      }
      var es, li := FindLeaf(root, height, key);
      LeafSorted(root, height, li);
      LeafLookup(root, height, key);
      var pos := LeafFindPos(es, key);
      KeyCmpHit(es, pos, key);
      if pos < |es| && KeyCmp(es[pos].key, key) == 0 && !es[pos].deleted {
        return Some(es[pos].value);
      }
      return None;
    }

    /** kvs_get: the key is a C string. */
    method Get(key: seq<byte>) returns (r: Option<Value>)
      requires Valid()
      ensures r == if CStr(key) in Contents() then Some(Contents()[CStr(key)]) else None
    {
      r := GetRaw(CStr(key));
    }

    /**
     * The lookup kvs_exists and kvs_delete share: the filter, find_leaf,
     * leaf_find_pos, and the test that the slot holds the key and is live.
     */
    method Live(k: Key) returns (r: bool)
      requires Valid()
      ensures r <==> k in Contents()
    {
      if !bloom.Maybe(k) {
        return false;
      }
      var es, li := FindLeaf(root, height, k);
      LeafSorted(root, height, li);
      LeafLookup(root, height, k);
      var pos := LeafFindPos(es, k);
      KeyCmpHit(es, pos, k);
      r := pos < |es| && KeyCmp(es[pos].key, k) == 0 && !es[pos].deleted;
    }

    /** kvs_exists: whether the C string names a live key. */
    method Exists(key: seq<byte>) returns (r: bool)
      requires Valid()
      ensures r <==> CStr(key) in Contents()
    {
      r := Live(CStr(key));
    }

    /**
     * kvs_delete: a live key gets its tombstone and count drops (OK);
     * anything else is NOTFOUND.  The filter is not touched.
     */
    method Delete(key: seq<byte>) returns (r: int)
      requires Valid()
      modifies this
      ensures Valid()
      ensures r == Status.OK || r == Status.NOTFOUND
      ensures r == Status.OK <==> CStr(key) in old(Contents())
      ensures Contents() == old(Contents()) - {CStr(key)}
      ensures height == old(height) && nodeCount == old(nodeCount)
    {
      var k := CStr(key);
      var live := Live(k);
      if !live {
        Seqs.RemoveAbsent(Contents(), k);
        return Status.NOTFOUND;
      }
      ghost var M := Contents();
      var root2, count2 := DeleteLive(root, height, nodeCount, count, pool.pos, k);
      BloomRemove(bloom.bitmap[..], bloom.bits, M, k);
      root, count := root2, count2;
      return Status.OK;
    }

    /** kvs_stats. */
    method GetStats() returns (s: Stats)
      requires Valid()
      ensures s.count == |Contents()| && s.nodeCount == NodeCount(root)
      ensures s.memoryUsed == pool.pos && s.memoryUsed <= POOL_SIZE
      ensures Balanced(root, s.treeHeight) && s.treeHeight >= 1
      ensures s.bloomBits == bloom.bits && s.bloomSetBits == bloom.setBits
      ensures s.bloomSetBits <= PopCount(bloom.bitmap[..])
    {
      s := Stats(count, pool.pos, bloom.bits, bloom.setBits, height, nodeCount);
    }

    /**
     * kvs_foreach: every live pair, leaf by leaf along the chain; the count
     * returned is db->count.
     */
    method Foreach() returns (visited: seq<(Key, Value)>, n: nat)
      requires Valid()
      ensures visited == LivePairs(Chain(root)) && n == |visited| && n == count
      ensures PairsMap(visited) == Contents()
      ensures forall i, j :: 0 <= i < j < |visited| ==> KeyLess(visited[i].0, visited[j].0)
    {
      var L := Leaves(root);
      visited, n := [], 0;
      var li := 0;
      while li < |L|
        invariant li <= |L|
        invariant visited == LivePairs(Flat(L[..li])) && n == |visited|
      {
        var es := L[li];
        var i := 0;
        assert L[li][..0] == [] && Flat(L[..li]) + [] == Flat(L[..li]);
        while i < |es|
          invariant i <= |es|
          invariant visited == LivePairs(Flat(L[..li]) + es[..i]) && n == |visited|
        {
          WalkStep(L, li, i);
          LivePairsSnoc(Flat(L[..li]) + es[..i], es[i]);
          if !es[i].deleted {
            visited := visited + [(es[i].key, es[i].value)];
            n := n + 1;
          }
          i := i + 1;
        }
        WalkLeafDone(L, li);
        li := li + 1;
      }
      WalkDone(L);
      WalkedChain(root, height, count);
    }

    /**
     * kvs_save on the bytes of the file: header, bitmap, then the record of
     * each live entry in chain order.
     */
    method Save() returns (image: seq<byte>)
      requires Valid()
      ensures image == Image(count, bloom.bits, bloom.bitmap[..], LivePairs(Chain(root)))
      ensures Decode(image) == Some(Snapshot(bloom.bits, bloom.bitmap[..], LivePairs(Chain(root))))
      ensures PairsMap(Decode(image).value.records) == Contents()
      ensures Passes(bloom.bitmap[..], bloom.bits, Decode(image).value.records)
    {
      ChainInBounds(root, None, None);
      Pow256Values();
      SaveLoad(Chain(root), bloom.bits, bloom.bitmap[..]);
      HoldsPasses(LivePairs(Chain(root)), bloom.bitmap[..], bloom.bits);
      var body := WriteRecords(Leaves(root));
      FlatLeaves(root);
      image := Le(MAGIC, 4) + Le(count, 8) + Le(bloom.bits, 8) + BitmapBytes(bloom.bitmap[..]) + body;
    }

    /** kvs_close: the bytes saved to db->filepath, when one was given to kvs_open. */
    method Close() returns (saved: Option<seq<byte>>)
      requires Valid()
      ensures saved == if filepath.Some? then Some(Image(count, bloom.bits, bloom.bitmap[..], LivePairs(Chain(root)))) else None
    {
      if filepath.Some? {
        var image := Save();
        return Some(image);
      }
      return None;
    }
  }

  // ===== the invariant on values =====

  /** The part of Valid about the tree and the counters, on values. */
  /** What kvs_foreach reports after walking every leaf: the live pairs of the chain, db->count of them, ascending. */
  lemma WalkedChain(root: Node, height: nat, count: nat)
    requires TreeInv(root, height) && count == |LiveMap(Chain(root))|
    ensures var P := LivePairs(Flat(Leaves(root)));
      P == LivePairs(Chain(root)) && |P| == count && PairsMap(P) == LiveMap(Chain(root)) &&
      forall i, j :: 0 <= i < j < |P| ==> KeyLess(P[i].0, P[j].0)
  {
    FlatLeaves(root);
    ChainInBounds(root, None, None);
    LiveMapCard(Chain(root));
    PairsMapLive(Chain(root));
    LivePairsSorted(Chain(root));
  }

  ghost predicate TreeState(root: Node, height: nat, nodeCount: nat, count: nat, used: nat)
  {
    TreeInv(root, height) && nodeCount == NodeCount(root) && count == |LiveMap(Chain(root))| &&
    Small(Chain(root)) && MIN_PUT_SPACE * |Chain(root)| <= used
  }

  /**
   * kvs_put_raw's tree step: insert_recursive from the root, then a new root
   * over the two halves when the root split, the height and node count grown
   * to match, and count grown when the key was not live before.
   */
  method PutTree(root: Node, height: nat, nodeCount: nat, count: nat, ghost used: nat, ghost used2: nat, e: Entry)
    returns (root2: Node, height2: nat, nodes2: nat, count2: nat)
    requires TreeState(root, height, nodeCount, count, used)
    requires !e.deleted && |e.key| < POOL_SIZE && |e.value| < POOL_SIZE && used + MIN_PUT_SPACE <= used2
    ensures TreeState(root2, height2, nodes2, count2, used2)
    ensures LiveMap(Chain(root2)) == LiveMap(Chain(root))[e.key := e.value]
  {
    var ins := InsertNode(root, e);
    PutState(root, height, nodeCount, count, used, used2, e);
    root2, height2 := RootAfter(ins), HeightAfter(ins, height);
    nodes2 := nodeCount + ins.created + (if ins.Split? then 1 else 0);
    count2 := count + (if ins.added then 1 else 0);
  }

  /** kvs_put_raw's tree step, given the pool space it consumed, keeps the state and binds the key. */
  lemma PutState(root: Node, height: nat, nodeCount: nat, count: nat, used: nat, used2: nat, e: Entry)
    requires TreeState(root, height, nodeCount, count, used)
    requires !e.deleted && |e.key| < POOL_SIZE && |e.value| < POOL_SIZE && used + MIN_PUT_SPACE <= used2
    ensures var ins := InsertNode(root, e);
      TreeState(RootAfter(ins), HeightAfter(ins, height), nodeCount + ins.created + (if ins.Split? then 1 else 0),
        count + (if ins.added then 1 else 0), used2) &&
      LiveMap(Chain(RootAfter(ins))) == LiveMap(Chain(root))[e.key := e.value]
  {
    var ins := InsertNode(root, e);
    ChainInBounds(root, None, None);
    PutTreeInv(root, height, e);
    PutTreeChain(root, height, e);
    PutTreeCount(root, e);
    InsertSortedSmall(Chain(root), e);
    InsertSortedLength(Chain(root), e);
  }

  /** kvs_delete's step on a live key: set its entry's deleted flag and decrement count. */
  method DeleteLive(root: Node, height: nat, nodeCount: nat, count: nat, ghost used: nat, k: Key)
    returns (root2: Node, count2: nat)
    requires TreeState(root, height, nodeCount, count, used) && k in LiveMap(Chain(root))
    ensures TreeState(root2, height, nodeCount, count2, used)
    ensures LiveMap(Chain(root2)) == LiveMap(Chain(root)) - {k}
  {
    DeleteState(root, height, nodeCount, count, used, k);
    root2, count2 := Tombstone(root, k), count - 1;
  }

  /** kvs_delete's tombstoning of a live key keeps the state with one live key fewer. */
  lemma DeleteState(root: Node, height: nat, nodeCount: nat, count: nat, used: nat, k: Key)
    requires TreeState(root, height, nodeCount, count, used) && k in LiveMap(Chain(root))
    ensures count >= 1 && TreeState(Tombstone(root, k), height, nodeCount, count - 1, used)
    ensures LiveMap(Chain(Tombstone(root, k))) == LiveMap(Chain(root)) - {k}
  {
    var M := LiveMap(Chain(root));
    DeleteTree(root, height, k);
    TombstoneChain(root, k, None, None);
    MarkKeySmall(Chain(root), k);
    assert M == (M - {k})[k := M[k]];
  }

  // ===== walks over the leaves =====

  /** bloom_rebuild: walk the leaves from first_leaf along the next links and add every live key. */
  method Rebuild(f: Filter, L: seq<seq<Entry>>)
    requires f.Valid()
    modifies f, f.bitmap
    ensures f.Valid() && f.bitmap == old(f.bitmap) && f.bits == old(f.bits)
    ensures f.bitmap[..] == AddKeys(old(f.bitmap[..]), f.bits, LiveKeys(Flat(L)))
    ensures f.setBits - old(f.setBits) == PopCount(f.bitmap[..]) - old(PopCount(f.bitmap[..]))
  {
    ghost var m0, c0 := f.bitmap[..], f.setBits;
    var li := 0;
    while li < |L|
      invariant li <= |L|
      invariant f.Valid() && f.bitmap == old(f.bitmap) && f.bits == old(f.bits)
      invariant f.bitmap[..] == AddKeys(m0, f.bits, LiveKeys(Flat(L[..li])))
      invariant f.setBits - c0 == PopCount(f.bitmap[..]) - PopCount(m0)
    {
      var es := L[li];
      var i := 0;
      assert L[li][..0] == [] && Flat(L[..li]) + [] == Flat(L[..li]);
      while i < |es|
        invariant i <= |es|
        invariant f.Valid() && f.bitmap == old(f.bitmap) && f.bits == old(f.bits)
        invariant f.bitmap[..] == AddKeys(m0, f.bits, LiveKeys(Flat(L[..li]) + es[..i]))
        invariant f.setBits - c0 == PopCount(f.bitmap[..]) - PopCount(m0)
      {
        WalkStep(L, li, i);
        LiveKeysSnoc(Flat(L[..li]) + es[..i], es[i]);
        if !es[i].deleted {
          AddKeysSnoc(m0, f.bits, LiveKeys(Flat(L[..li]) + es[..i]), es[i].key);
          f.Add(es[i].key);
        }
        i := i + 1;
      }
      WalkLeafDone(L, li);
      li := li + 1;
    }
    WalkDone(L);
  }

  /** The record loop of kvs_save: for each live entry along the chain, its lengths, key and value. */
  method WriteRecords(L: seq<seq<Entry>>) returns (body: seq<byte>)
    ensures body == Records(LivePairs(Flat(L)))
  {
    body := [];
    var li := 0;
    while li < |L|
      invariant li <= |L|
      invariant body == Records(LivePairs(Flat(L[..li])))
    {
      var es := L[li];
      var i := 0;
      assert L[li][..0] == [] && Flat(L[..li]) + [] == Flat(L[..li]);
      while i < |es|
        invariant i <= |es|
        invariant body == Records(LivePairs(Flat(L[..li]) + es[..i]))
      {
        WalkStep(L, li, i);
        LivePairsSnoc(Flat(L[..li]) + es[..i], es[i]);
        if !es[i].deleted {
          RecordsSnoc(LivePairs(Flat(L[..li]) + es[..i]), (es[i].key, es[i].value));
          body := body + (Le(|es[i].key|, 4) + Le(|es[i].value|, 4) + es[i].key + es[i].value);
        }
        i := i + 1;
      }
      WalkLeafDone(L, li);
      li := li + 1;
    }
    WalkDone(L);
  }

  /** The test the lookups make on the slot leaf_find_pos returns, in terms of key equality. */
  lemma KeyCmpHit(es: seq<Entry>, pos: nat, k: Key)
    ensures pos < |es| ==> (KeyCmp(es[pos].key, k) == 0 <==> es[pos].key == k)
  {
    if pos < |es| {
      KeyCmpZero(es[pos].key, k);
    }
  }

  /** Every key of the pairs P passes the filter (m, bits). */
  ghost predicate Passes(m: seq<bv8>, bits: nat, P: seq<(Key, Value)>)
  {
    WellSized(m, bits) && forall i :: 0 <= i < |P| ==> MaybeIn(m, bits, P[i].0)
  }

  /**
   * The pairs kvs_load's replay stores, starting from pool offset pos: a put
   * whose three allocations do not all fit returns NOMEM and stores nothing,
   * but the allocations that fitted stay consumed.
   */
  ghost function Replay(pos: nat, P: seq<(Key, Value)>): (r: seq<(Key, Value)>)
    ensures |r| <= |P|
    decreases |P|
  {
    if |P| == 0 then []
    else
      var a := AllocThree(pos, POOL_SIZE, ENTRY_SIZE, |P[0].0| + 1, |P[0].1| + 1);
      (if a.0 then [P[0]] else []) + Replay(a.1, P[1..])
  }

  /** The pool space the puts of P take when every allocation fits. */
  function Space(P: seq<(Key, Value)>): nat
    decreases |P|
  {
    if |P| == 0 then 0
    else AlignUp(ENTRY_SIZE) + AlignUp(|P[0].0| + 1) + AlignUp(|P[0].1| + 1) + Space(P[1..])
  }

  /** A replay whose puts fit in the rest of the pool stores every pair. */
  lemma {:induction false} ReplayFits(pos: nat, P: seq<(Key, Value)>)
    requires pos + Space(P) <= POOL_SIZE
    ensures Replay(pos, P) == P
    decreases |P|
  {
    if |P| > 0 {
      var a := AllocThree(pos, POOL_SIZE, ENTRY_SIZE, |P[0].0| + 1, |P[0].1| + 1);
      ReplayFits(a.1, P[1..]);
      assert [P[0]] + P[1..] == P;
    }
  }

  /**
   * kvs_load on the bytes of a file: no database unless the header reads
   * back; otherwise a fresh database (with no save path) whose filter is the
   * saved one, into which every saved record is put again by kvs_put_raw.
   * The contents are what the replayed puts that found room stored (all of
   * them when they fit, ReplayFits).  When the saved bitmap passes every
   * replayed key, as that of a saved store does (Kvs.Save), the filter is
   * the saved bitmap and size, with bloom_set_bits left at 0.
   */
  method Load(data: seq<byte>) returns (db: Option<Kvs>)
    ensures db.Some? <==> Decode(data).Some?
    ensures db.Some? ==> fresh(db.value) && db.value.Valid() && db.value.filepath.None?
    ensures db.Some? ==> db.value.Contents() == PairsMap(Replay(0, Decode(data).value.records))
    ensures db.Some? && Passes(Decode(data).value.bitmap, Decode(data).value.bits, Decode(data).value.records) ==>
      db.value.bloom.bitmap[..] == Decode(data).value.bitmap && db.value.bloom.bits == Decode(data).value.bits &&
      db.value.bloom.setBits == 0
  {
    var snap := Decode(data);
    if snap.None? {
      return None;
    }
    var s := snap.value;
    var d := new Kvs(None);
    d.bloom.Restore(s.bitmap, s.bits);
    Pow256Values();
    ghost var done: seq<(Key, Value)> := [];
    var i := 0;
    assert s.records[i..] == s.records;
    while i < |s.records|
      invariant i <= |s.records|
      invariant fresh(d) && fresh(d.pool) && fresh(d.bloom) && fresh(d.bloom.bitmap)
      invariant d.Valid() && d.filepath.None?
      invariant d.Contents() == PairsMap(done)
      invariant done + Replay(d.pool.pos, s.records[i..]) == Replay(0, s.records)
      invariant Passes(s.bitmap, s.bits, s.records) ==>
        d.bloom.bitmap[..] == s.bitmap && d.bloom.bits == s.bits && d.bloom.setBits == 0
    {
      done := ReplayRecord(d, s, i, done);
      i := i + 1;
    }
    assert s.records[i..] == [];
    assert done == Replay(0, s.records);
    return Some(d);
  }

  /**
   * One round of kvs_load's replay loop: kvs_put_raw of record i.  The pairs
   * stored so far and those the rest of the replay stores make up the whole
   * replay, and a saved bitmap that passes every key is left as it was.
   */
  method ReplayRecord(d: Kvs, s: Snapshot, i: nat, ghost done: seq<(Key, Value)>) returns (ghost done2: seq<(Key, Value)>)
    requires i < |s.records| && d.Valid() && d.Contents() == PairsMap(done)
    requires done + Replay(d.pool.pos, s.records[i..]) == Replay(0, s.records)
    requires Passes(s.bitmap, s.bits, s.records) ==>
      d.bloom.bitmap[..] == s.bitmap && d.bloom.bits == s.bits && d.bloom.setBits == 0
    modifies d, d.pool, d.bloom, d.bloom.bitmap
    ensures d.Valid() && d.Contents() == PairsMap(done2)
    ensures done2 + Replay(d.pool.pos, s.records[i + 1..]) == Replay(0, s.records)
    ensures Passes(s.bitmap, s.bits, s.records) ==>
      d.bloom.bitmap[..] == s.bitmap && d.bloom.bits == s.bits && d.bloom.setBits == 0
    ensures d.bloom.bitmap == old(d.bloom.bitmap) || fresh(d.bloom.bitmap)
  {
    ghost var pos, m0, bits0 := d.pool.pos, d.bloom.bitmap[..], d.bloom.bits;
    var r := d.PutRaw(s.records[i].0, s.records[i].1);
    done2 := if r == Status.OK then done + [s.records[i]] else done;
    ReplayBook(pos, s.records, i, done, r == Status.OK, d.pool.pos);
    if r == Status.OK {
      PairsMapSnoc(done, s.records[i]);
    }
    if Passes(s.bitmap, s.bits, s.records) && r == Status.OK {
      PutFilterPassing(m0, bits0, s.records[i].0, d.count % EXPAND_EVERY == 0, LiveKeys(Chain(d.root)),
                       d.bloom.bitmap[..], d.bloom.bits, d.bloom.setBits);
    }
  }

  /** The replay bookkeeping of one round: record i is stored exactly when its allocations fit. */
  lemma ReplayBook(pos: nat, P: seq<(Key, Value)>, i: nat, done: seq<(Key, Value)>, ok: bool, next: nat)
    requires i < |P| && done + Replay(pos, P[i..]) == Replay(0, P)
    requires var a := AllocThree(pos, POOL_SIZE, ENTRY_SIZE, |P[i].0| + 1, |P[i].1| + 1); ok == a.0 && next == a.1
    ensures (if ok then done + [P[i]] else done) + Replay(next, P[i + 1..]) == Replay(0, P)
  {
    ReplayStep(pos, P, i);
    var later := Replay(next, P[i + 1..]);
    if ok {
      assert done + ([P[i]] + later) == (done + [P[i]]) + later;
    } else {
      assert [] + later == later;
    }
  }

  lemma ReplayStep(pos: nat, P: seq<(Key, Value)>, i: nat)
    requires i < |P|
    ensures var a := AllocThree(pos, POOL_SIZE, ENTRY_SIZE, |P[i].0| + 1, |P[i].1| + 1);
      Replay(pos, P[i..]) == (if a.0 then [P[i]] else []) + Replay(a.1, P[i + 1..])
  {
    assert P[i..][1..] == P[i + 1..];
  }

  /** Every key of a saved record is bound in the map the records rebuild. */
  lemma {:induction false} PairsMapHas(P: seq<(Key, Value)>, i: nat)
    requires i < |P|
    ensures P[i].0 in PairsMap(P)
    decreases |P|
  {
    if i < |P| - 1 {
      PairsMapHas(P[..|P| - 1], i);
    }
  }

  /** A filter that holds for the rebuilt map passes every saved record's key. */
  lemma HoldsPasses(P: seq<(Key, Value)>, m: seq<bv8>, bits: nat)
    requires BloomHolds(m, bits, PairsMap(P))
    ensures Passes(m, bits, P)
  {
    forall i | 0 <= i < |P|
      ensures MaybeIn(m, bits, P[i].0)
    {
      PairsMapHas(P, i);
    }
  }

  lemma PairsMapSnoc(P: seq<(Key, Value)>, p: (Key, Value))
    ensures PairsMap(P + [p]) == PairsMap(P)[p.0 := p.1]
  {
    assert (P + [p])[..|P|] == P;
  }

  /**
   * What kvs_save writes, kvs_load reads back: the saved filter and the live
   * pairs in chain order, whose replay rebuilds the contents.
   */
  lemma SaveLoad(F: seq<Entry>, bits: nat, m: seq<bv8>)
    requires EntriesSorted(F) && Small(F) && WellSized(m, bits) && bits < Pow256(8) && |F| < Pow256(8)
    ensures Decode(Image(|LiveMap(F)|, bits, m, LivePairs(F))) == Some(Snapshot(bits, m, LivePairs(F)))
    ensures PairsMap(LivePairs(F)) == LiveMap(F)
  {
    LiveMapCard(F);
    LivePairsLength(F);
    LivePairsSmall(F);
    Pow256Values();
    ImageRoundTrip(bits, m, LivePairs(F));
    PairsMapLive(F);
  }

  lemma {:induction false} LivePairsLength(F: seq<Entry>)
    ensures |LivePairs(F)| <= |F|
    decreases |F|
  {
    if |F| > 0 {
      LivePairsLength(F[..|F| - 1]);
    }
  }
}
