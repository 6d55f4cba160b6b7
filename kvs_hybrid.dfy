/**
 * The engine of kvs_hybrid.c: a chained hash table without tombstones and
 * without a duplicate check, which turns, once 65536 entries are counted,
 * into a red-black tree ordered by strcmp; a bloom filter in front of both,
 * rebuilt on growth, in tree mode by an in-order walk with an explicit
 * 64-slot stack.
 *
 * Keys and values are C strings: what a put or get is handed is cut at its
 * first NUL (Keys.CStr).  A chain is a sequence of entries, head first; a
 * put pushes at the head, so the head-most entry of a key is its latest put,
 * and that is what kvs_get answers in hash mode.  Conversion walks every
 * chain head first and rbtree_insert replaces on an equal key, so the tree
 * keeps, for each key, the entry deepest in its chain: the OLDEST put.  The
 * model keeps both maps and proves where they differ.
 */
module HybridKvs {
  import opened Keys
  import opened Wrappers
  import opened Arena
  import opened Bloom
  import opened BPlusTree
  import opened BPlusTreeProofs
  import opened BPlusTreeWalk
  import opened RedBlack
  import opened HashTable
  import HashTreeKvs
  import BPlusTreeKvs

  /** sizeof(Entry) on LP64: two pointers, two uint32_t and a pointer. */
  const ENTRY_SIZE: nat := 32

  /** kvs_put checks the bloom filter for growth every this many counted entries. */
  const EXPAND_EVERY: nat := 1000

  /** `RBNode *stack[64]` of bloom_expand. */
  const STACK_SLOTS: nat := 64

  /**
   * The least a successful put takes from the pool: the entry and a byte for
   * each of the two terminating NULs.
   */
  const LEAST_PUT: nat := ENTRY_SIZE + 2

  // ===== chains answered head first =====

  /** The map a chain answers with when walked from its head: the first entry of a key wins. */
  function FirstMap(c: seq<Entry>): map<Key, Value>
    decreases |c|
  {
    if |c| == 0 then map[] else FirstMap(c[1..])[c[0].key := c[0].value]
  }

  function FirstMaps(L: seq<seq<Entry>>): (r: seq<map<Key, Value>>)
    ensures |r| == |L| && forall i :: 0 <= i < |L| ==> r[i] == FirstMap(L[i])
  {
    seq(|L|, i requires 0 <= i < |L| => FirstMap(L[i]))
  }

  /** A chain binds exactly the keys of its entries. */
  lemma {:induction false} FirstMapKeys(c: seq<Entry>, k: Key)
    ensures k in FirstMap(c) <==> exists j :: 0 <= j < |c| && c[j].key == k
    decreases |c|
  {
    if |c| > 0 {
      var d := c[1..];
      FirstMapKeys(d, k);
      if k in FirstMap(d) {
        var j :| 0 <= j < |d| && d[j].key == k;
        assert c[j + 1].key == k;
      }
      if exists j :: 0 <= j < |c| && c[j].key == k {
        var j :| 0 <= j < |c| && c[j].key == k;
        if j > 0 {
          assert d[j - 1].key == k;
        }
      }
    }
  }

  /** j is where the chain walk of kvs_get stops: the first entry with key k, or |c|. */
  ghost predicate FirstAt(c: seq<Entry>, k: Key, j: nat)
  {
    j <= |c| && (forall i :: 0 <= i < j ==> c[i].key != k) && (j < |c| ==> c[j].key == k)
  }

  /** The walk's stop decides the chain's answer: bound exactly when it stopped on an entry, to that entry's value. */
  lemma {:induction false} FirstMapAt(c: seq<Entry>, k: Key, j: nat)
    requires FirstAt(c, k, j)
    ensures k in FirstMap(c) <==> j < |c|
    ensures j < |c| ==> FirstMap(c)[k] == c[j].value
    decreases |c|
  {
    if |c| > 0 && j > 0 {
      var d := c[1..];
      forall i | 0 <= i < j - 1 ensures d[i].key != k {
        assert d[i] == c[i + 1];
      }
      FirstMapAt(d, k, j - 1);
    }
  }

  /**
   * The chain walk of kvs_get: `while (e) { if (e->klen == klen &&
   * memcmp(e->key, key, klen) == 0) ...; e = e->hash_next; }`.
   */
  method ChainFind(c: seq<Entry>, k: Key) returns (j: nat)
    ensures FirstAt(c, k, j)
  {
    j := 0;
    while j < |c| && !SameBytes(c[j].key, k)
      invariant j <= |c| && forall i :: 0 <= i < j ==> c[i].key != k
    {
      SameBytesIsEqual(c[j].key, k);
      j := j + 1;
    }
    if j < |c| {
      SameBytesIsEqual(c[j].key, k);
    }
  }

  // ===== the whole table =====

  /** Every chain holds C-string entries. */
  ghost predicate CStrTable(L: seq<seq<Entry>>)
  {
    forall i :: 0 <= i < |L| ==> CStrEntries(L[i])
  }

  /** The map a table answers with in hash mode. */
  function HashMap(L: seq<seq<Entry>>): map<Key, Value>
  {
    Union(FirstMaps(L))
  }

  /** The hash-mode step of kvs_put: a new entry pushed at the head of its key's chain. */
  function Push(L: seq<seq<Entry>>, k: Key, v: Value): (r: seq<seq<Entry>>)
    requires |L| == BUCKETS
    ensures |r| == BUCKETS
  {
    L[BucketOf(k) := [Entry(k, v, false)] + L[BucketOf(k)]]
  }

  lemma FirstMapsPlaced(L: seq<seq<Entry>>)
    requires Placed(L)
    ensures MapsPlaced(FirstMaps(L))
  {
    forall i, k | 0 <= i < |L| && k in FirstMaps(L)[i] ensures BucketOf(k) == i {
      FirstMapKeys(L[i], k);
    }
  }

  /** A key is bound in the table exactly when its own chain binds it, and to the value its chain answers with. */
  lemma HashLookup(L: seq<seq<Entry>>, k: Key)
    requires Placed(L) && |L| == BUCKETS
    ensures k in HashMap(L) <==> k in FirstMap(L[BucketOf(k)])
    ensures k in HashMap(L) ==> HashMap(L)[k] == FirstMap(L[BucketOf(k)])[k]
  {
    FirstMapsPlaced(L);
    UnionLookup(FirstMaps(L), k);
  }

  /** A push binds its key in the table to the new value, changes no other key and lengthens the walk by one. */
  lemma HashPush(L: seq<seq<Entry>>, k: Key, v: Value)
    requires Placed(L) && |L| == BUCKETS
    ensures Placed(Push(L, k, v)) && HashMap(Push(L, k, v)) == HashMap(L)[k := v]
    ensures |Flat(Push(L, k, v))| == |Flat(L)| + 1
  {
    var b := BucketOf(k);
    var c := [Entry(k, v, false)] + L[b];
    assert c[1..] == L[b];
    FirstMapsPlaced(L);
    UnionUpdate(FirstMaps(L), k, v);
    assert FirstMaps(Push(L, k, v)) == FirstMaps(L)[b := FirstMaps(L)[b][k := v]];
    forall i, j | 0 <= i < BUCKETS && 0 <= j < |Push(L, k, v)[i]| ensures BucketOf(Push(L, k, v)[i][j].key) == i {
      if i == b && j > 0 {
        assert Push(L, k, v)[i][j] == L[b][j - 1];
      }
    }
    FlatLength(L, b, c);
  }

  /** Replacing one chain changes the length of the walk by the difference. */
  lemma {:induction false} FlatLength(L: seq<seq<Entry>>, b: nat, c: seq<Entry>)
    requires b < |L|
    ensures |Flat(L[b := c])| + |L[b]| == |Flat(L)| + |c|
    decreases |L|
  {
    var n := |L| - 1;
    assert L[b := c][..n] == if b == n then L[..n] else L[..n][b := c];
    if b < n {
      FlatLength(L[..n], b, c);
    }
  }

  /** Pushing a C-string entry keeps every chain made of C-string entries. */
  lemma CStrPush(L: seq<seq<Entry>>, k: Key, v: Value)
    requires |L| == BUCKETS && CStrTable(L) && NulFree(k)
    ensures CStrTable(Push(L, k, v))
  {
    var b := BucketOf(k);
    forall j | 0 <= j < |Push(L, k, v)[b]| ensures NulFree(Push(L, k, v)[b][j].key) && !Push(L, k, v)[b][j].deleted {
      if j > 0 {
        assert Push(L, k, v)[b][j] == L[b][j - 1];
      }
    }
  }

  /** A live entry's key is bound in the live map. */
  lemma LiveMapKeeps(c: seq<Entry>, j: nat)
    requires j < |c| && !c[j].deleted
    ensures c[j].key in LiveMap(c)
  {
    assert c == c[..j + 1] + c[j + 1..];
    assert c[..j + 1][..j] == c[..j];
    LiveMapAppend(c[..j + 1], c[j + 1..]);
  }

  // ===== conversion =====

  /**
   * The tree kvs_convert_to_rbtree builds: every entry of every chain,
   * bucket by bucket and head first, rbtree_insert-ed into the (empty) tree.
   * The tree is the last-wins map of that walk, one node per distinct key.
   */
  method BuildTree(L: seq<seq<Entry>>) returns (t: Tree)
    requires CStrTable(L)
    ensures IsRBTree(t) && CStrEntries(Inorder(t))
    ensures LiveMap(Inorder(t)) == LiveMap(Flat(L)) && |Inorder(t)| <= |Flat(L)|
  {
    t := Nil;
    var i := 0;
    while i < |L|
      invariant i <= |L|
      invariant IsRBTree(t) && CStrEntries(Inorder(t))
      invariant LiveMap(Inorder(t)) == LiveMap(Flat(L[..i])) && |Inorder(t)| <= |Flat(L[..i])|
    {
      ghost var t0 := t;
      t := InsertAll(t, L[i]);
      LiveMapAppend(Inorder(t0), L[i]);
      LiveMapAppend(Flat(L[..i]), L[i]);
      HashTreeKvs.FlatSnoc(L, i);
      i := i + 1;
    }
    WalkDone(L);
  }

  /** The converted map binds the same keys as the table did. */
  lemma ConvertKeys(L: seq<seq<Entry>>)
    requires Placed(L) && |L| == BUCKETS && CStrTable(L)
    ensures LiveMap(Flat(L)).Keys == HashMap(L).Keys
  {
    forall k ensures k in LiveMap(Flat(L)) <==> k in HashMap(L) {
      var c := L[BucketOf(k)];
      HashLookup(L, k);
      HashTreeKvs.TableLookup(L, k);
      FirstMapKeys(c, k);
      if k in LiveMap(c) {
        var j := LiveMapHas(c, k);
      }
      if k in FirstMap(c) {
        var j :| 0 <= j < |c| && c[j].key == k;
        LiveMapKeeps(c, j);
      }
    }
  }

  /**
   * What a key holds after conversion: the value of the deepest entry of its
   * chain, the oldest put of the key, where kvs_get in hash mode answered
   * with the head-most, the latest.
   */
  lemma ConvertedValue(L: seq<seq<Entry>>, k: Key, j: nat)
    requires Placed(L) && |L| == BUCKETS
    requires var c := L[BucketOf(k)];
      j < |c| && c[j].key == k && !c[j].deleted && forall i :: j < i < |c| ==> c[i].key != k
    ensures k in LiveMap(Flat(L)) && LiveMap(Flat(L))[k] == L[BucketOf(k)][j].value
  {
    LastAt(L[BucketOf(k)], k, j);
    HashTreeKvs.TableLookup(L, k);
  }

  /** A chain's last-wins map binds a key to its deepest entry. */
  lemma {:induction false} LastAt(c: seq<Entry>, k: Key, j: nat)
    requires j < |c| && c[j].key == k && !c[j].deleted && forall i :: j < i < |c| ==> c[i].key != k
    ensures k in LiveMap(c) && LiveMap(c)[k] == c[j].value
    decreases |c|
  {
    var p := c[..|c| - 1];
    if j < |c| - 1 {
      forall i | j <= i < |p| ensures p[i] == c[i] {
      }
      LastAt(p, k, j);
      assert c[|c| - 1].key != k;
    }
  }

  /** Two puts of k in one chain, the later (v2) at the head: hash mode answers v2, the converted tree v1. */
  lemma ConversionKeepsOldest(k: Key, v1: Value, v2: Value)
    ensures var c := [Entry(k, v2, false), Entry(k, v1, false)];
      FirstMap(c)[k] == v2 && LiveMap(c)[k] == v1
  {
    var c := [Entry(k, v2, false), Entry(k, v1, false)];
    assert c[1..] == [Entry(k, v1, false)];
    assert c[..1] == [Entry(k, v2, false)];
  }

  // ===== the bloom rebuild in tree mode =====

  /**
   * What an explicit-stack in-order walk still has to visit besides the
   * subtree at `curr`: each stacked node, from the top down, followed by its
   * right subtree.
   */
  function StackRest(S: seq<Tree>): seq<Entry>
    decreases |S|
  {
    if |S| == 0 then []
    else
      var n := S[|S| - 1];
      (if n.Node? then [n.entry] + Inorder(n.right) else []) + StackRest(S[..|S| - 1])
  }

  /** The stack holds nodes, each at a depth that leaves room for its subtree within h; so does `curr` above the stack. */
  ghost predicate StackFits(S: seq<Tree>, curr: Tree, h: nat)
  {
    |S| + Height(curr) <= h &&
    forall i :: 0 <= i < |S| ==> S[i].Node? && i + Height(S[i]) <= h
  }

  /**
   * The walk of t so far: `done` visited, then the subtree at `curr`, then
   * what the stack S still holds.
   */
  ghost predicate Walking(t: Tree, S: seq<Tree>, curr: Tree, done: seq<Entry>)
  {
    StackFits(S, curr, Height(t)) && done + Inorder(curr) + StackRest(S) == Inorder(t)
  }

  /** `stack[top++] = curr; curr = curr->left;` keeps the walk, and the slot written is below the tree's height. */
  lemma PushStep(t: Tree, S: seq<Tree>, curr: Tree, done: seq<Entry>)
    requires Walking(t, S, curr, done) && curr.Node?
    ensures Walking(t, S + [curr], curr.left, done) && |S| < Height(t)
  {
    assert (S + [curr])[..|S|] == S;
    assert done + Inorder(curr) + StackRest(S) == done + Inorder(curr.left) + StackRest(S + [curr]);
  }

  /** `curr = stack[--top];`, its entry visited, `curr = curr->right;` keeps the walk; the entry is the next one in key order. */
  lemma PopStep(t: Tree, S: seq<Tree>, done: seq<Entry>)
    requires Walking(t, S, Nil, done) && |S| > 0 && CStrEntries(Inorder(t))
    ensures var n := S[|S| - 1];
      n.Node? && Walking(t, S[..|S| - 1], n.right, done + [n.entry]) &&
      |done| < |Inorder(t)| && !n.entry.deleted
  {
    var n := S[|S| - 1];
    assert StackRest(S) == [n.entry] + Inorder(n.right) + StackRest(S[..|S| - 1]);
    assert Inorder(t)[|done|] == n.entry;
  }

  /** Adding the next visited entry's key to the filter. */
  lemma VisitStep(m0: seq<bv8>, bits: nat, done: seq<Entry>, e: Entry)
    requires WellSized(m0, bits) && !e.deleted
    ensures AddKeys(m0, bits, LiveKeys(done + [e])) == AddIn(AddKeys(m0, bits, LiveKeys(done)), bits, e.key)
  {
    LiveKeysSnoc(done, e);
    AddKeysSnoc(m0, bits, LiveKeys(done), e.key);
  }

  /** The inner loop of bloom_expand: `while (curr != nil) { stack[top++] = curr; curr = curr->left; }`. */
  method PushSpine(stack: array<Tree>, top: nat, curr: Tree, ghost t: Tree, ghost done: seq<Entry>) returns (top2: nat)
    requires stack.Length == STACK_SLOTS && Height(t) <= STACK_SLOTS && top <= STACK_SLOTS
    requires Walking(t, stack[..top], curr, done) && (curr != Nil || top > 0)
    modifies stack
    ensures 0 < top2 <= STACK_SLOTS && Walking(t, stack[..top2], Nil, done)
  {
    var x := curr;
    top2 := top;
    while x != Nil
      invariant top2 <= STACK_SLOTS
      invariant Walking(t, stack[..top2], x, done)
      invariant x != Nil || top2 > 0
      decreases x
    {
      PushStep(t, stack[..top2], x, done);
      stack[top2] := x;
      assert stack[..top2 + 1] == stack[..top2] + [x];
      top2 := top2 + 1;
      x := x.left;
    }
  }

  /**
   * The rest of an outer round of bloom_expand's walk: `curr = stack[--top];`,
   * bloom_add of its key, `curr = curr->right;`.  The key added is that of
   * the next entry in key order.
   */
  method PopVisit(f: Filter, stack: array<Tree>, top: nat, ghost t: Tree, ghost done: seq<Entry>, ghost m0: seq<bv8>)
    returns (top2: nat, curr: Tree, ghost e: Entry)
    requires f.Valid() && WellSized(m0, f.bits) && f.bitmap[..] == AddKeys(m0, f.bits, LiveKeys(done))
    requires 0 < top <= stack.Length && stack as object != f.bitmap
    requires Walking(t, stack[..top], Nil, done) && CStrEntries(Inorder(t))
    modifies f, f.bitmap
    ensures f.Valid() && f.bitmap == old(f.bitmap) && f.bits == old(f.bits)
    ensures top2 == top - 1 && Walking(t, stack[..top2], curr, done + [e]) && |done| < |Inorder(t)|
    ensures f.bitmap[..] == AddKeys(m0, f.bits, LiveKeys(done + [e]))
    ensures f.setBits - old(f.setBits) == PopCount(f.bitmap[..]) - old(PopCount(f.bitmap[..]))
  {
    ghost var S := stack[..top];
    PopStep(t, S, done);
    assert S[..top - 1] == stack[..top - 1];
    top2 := top - 1;
    curr := stack[top2];
    e := curr.entry;
    VisitStep(m0, f.bits, done, e);
    f.Add(curr.entry.key);
    assert stack[..top2] == S[..top - 1];
    curr := curr.right;
  }

  /**
   * The tree-mode branch of bloom_expand: `while (curr != nil || top > 0)`,
   * pushing the left spine onto `stack[top++]`, popping `stack[--top]`,
   * bloom_add of its key and on to its right child.  A tree no higher than
   * the 64 slots never overflows the stack, and every key is added, in key
   * order.
   */
  method AddTreeKeysStack(f: Filter, t: Tree)
    requires f.Valid() && Height(t) <= STACK_SLOTS && CStrEntries(Inorder(t))
    modifies f, f.bitmap
    ensures f.Valid() && f.bitmap == old(f.bitmap) && f.bits == old(f.bits)
    ensures f.bitmap[..] == AddKeys(old(f.bitmap[..]), f.bits, LiveKeys(Inorder(t)))
    ensures f.setBits - old(f.setBits) == PopCount(f.bitmap[..]) - old(PopCount(f.bitmap[..]))
  {
    ghost var m0, c0 := f.bitmap[..], f.setBits;
    var stack := new Tree[STACK_SLOTS](_ => Nil);
    var top := 0;
    var curr := t;
    ghost var done: seq<Entry> := [];
    assert LiveKeys(done) == [] && stack[..top] == [];
    while curr != Nil || top > 0
      invariant fresh(stack) && top <= STACK_SLOTS && stack as object != f.bitmap
      invariant f.Valid() && f.bitmap == old(f.bitmap) && f.bits == old(f.bits)
      invariant Walking(t, stack[..top], curr, done)
      invariant f.bitmap[..] == AddKeys(m0, f.bits, LiveKeys(done))
      invariant f.setBits - c0 == PopCount(f.bitmap[..]) - PopCount(m0)
      decreases |Inorder(t)| - |done|
    {
      ghost var bm, cb := f.bitmap[..], f.setBits;
      top := PushSpine(stack, top, curr, t, done);
      assert f.bitmap[..] == bm && f.setBits == cb;
      ghost var e;
      top, curr, e := PopVisit(f, stack, top, t, done, m0);
      done := done + [e];
    }
    assert done == Inorder(t);
  }

  /** A tree of fewer than 2^22 nodes fits the 64-slot stack. */
  lemma StackSuffices(t: Tree)
    requires RedBlackShape(t) && |Inorder(t)| < 4194304
    ensures Height(t) <= STACK_SLOTS
  {
    assert Pow2(6) == 64 && Pow2(12) == 4096 && Pow2(18) == 262144;
    assert Pow2(22) == 4194304;
    HeightLimit(t);
  }

  // ===== the store =====

  class Kvs {
    var mode: HashTreeKvs.Mode
    var count: nat
    const buckets: array<seq<Entry>>
    var tree: Tree
    const pool: Pool
    const bloom: Filter

    /** The entries bloom_expand re-adds: every entry of the chains in hash mode, the tree's in tree mode. */
    ghost function Walk(): seq<Entry>
      reads this, buckets
    {
      if mode == HashTreeKvs.Hash then Flat(buckets[..]) else Inorder(tree)
    }

    /** What kvs_get answers with: the head-most entry of the key's chain, or the tree's entry. */
    ghost function Contents(): map<Key, Value>
      reads this, buckets
    {
      if mode == HashTreeKvs.Hash then HashMap(buckets[..]) else LiveMap(Inorder(tree))
    }

    /**
     * The two indexes: 8192 chains of C-string entries, each in the chain of
     * its key; a red-black tree of C-string entries, empty in hash mode; no
     * chain left in tree mode.  count is the number of entries in hash mode
     * and at least the number of nodes in tree mode.
     */
    ghost predicate Indexed()
      reads this, buckets
    {
      buckets.Length == BUCKETS && Placed(buckets[..]) && CStrTable(buckets[..]) &&
      IsRBTree(tree) && CStrEntries(Inorder(tree)) &&
      (mode == HashTreeKvs.Hash ==> tree == Nil && count == |Flat(buckets[..])|) &&
      (mode == HashTreeKvs.RBTree ==> buckets[..] == HashTreeKvs.Empties(BUCKETS) && |Inorder(tree)| <= count)
    }

    /** Every key answered passes the bloom filter. */
    ghost predicate Filtered()
      reads this, buckets, bloom, bloom.bitmap
    {
      bloom.Valid() && bloom.bits <= MAX_BITS && bloom.bitmap as object != buckets as object &&
      BloomHolds(bloom.bitmap[..], bloom.bits, Contents())
    }

    /**
     * Between operations: the indexes, the filter, a pool of the default
     * size that every counted put took at least LEAST_PUT bytes of, and the
     * table converted before it counts the threshold's worth of entries.
     */
    ghost predicate Valid()
      reads this, buckets, pool, bloom, bloom.bitmap
    {
      Indexed() && Filtered() && Pooled(0) && (mode == HashTreeKvs.Hash ==> count < THRESHOLD)
    }

    /** A pool of the default size, with room in what it handed out for `more` puts beyond those counted. */
    ghost predicate Pooled(more: nat)
      reads this, pool
    {
      pool.Valid() && pool.size == POOL_SIZE && LEAST_PUT * (count + more) <= pool.pos
    }

    /** kvs_open: empty chains, an empty tree, hash mode, an empty filter and pool. */
    constructor ()
      ensures Valid() && fresh(buckets) && fresh(pool) && fresh(bloom) && fresh(bloom.bitmap)
      ensures mode == HashTreeKvs.Hash && count == 0 && Contents() == map[]
      ensures pool.pos == 0 && bloom.bits == INIT_BITS && bloom.setBits == 0
    {
      mode := HashTreeKvs.Hash;
      count := 0;
      buckets := new seq<Entry>[BUCKETS](_ => []);
      tree := Nil;
      pool := new Pool(POOL_SIZE);
      bloom := new Filter();
      new;
      HashTreeKvs.FlatEmpty(buckets[..]);
      UnionEmpty(FirstMaps(buckets[..]));
    }

    /**
     * kvs_put: three pool allocations, all made before any is checked; -1 if
     * one failed, with index, count and filter untouched; otherwise the pair
     * of C strings is stored.
     */
    method Put(key: seq<byte>, value: seq<byte>) returns (r: int)
      requires Valid()
      modifies this, buckets, pool, bloom, bloom.bitmap
      ensures Valid()
      ensures r == 0 || r == -1
      ensures var a := AllocThree(old(pool.pos), POOL_SIZE, ENTRY_SIZE, |CStr(key)| + 1, |CStr(value)| + 1);
        (r == 0 <==> a.0) && pool.pos == a.1
      ensures r == 0 ==> Indexes(old(mode), old(count), old(buckets[..]), old(Contents()), CStr(key), CStr(value))
      ensures old(mode) == HashTreeKvs.RBTree ==> mode == HashTreeKvs.RBTree
      ensures r == 0 ==>
        PutFilter(old(bloom.bitmap[..]), old(bloom.bits), old(bloom.setBits), CStr(key), count % EXPAND_EVERY == 0,
                  LiveKeys(Walk()), bloom.bitmap[..], bloom.bits, bloom.setBits)
      ensures r == -1 ==>
        mode == old(mode) && count == old(count) && tree == old(tree) && buckets[..] == old(buckets[..]) &&
        bloom.bitmap == old(bloom.bitmap) && bloom.bitmap[..] == old(bloom.bitmap[..]) &&
        bloom.bits == old(bloom.bits) && bloom.setBits == old(bloom.setBits)
      ensures bloom.bitmap == old(bloom.bitmap) || fresh(bloom.bitmap)
    {
      var k, v := CStr(key), CStr(value);
      CStrIsNulFree(key);
      r := PutPair(k, v);
    }

    /** kvs_put once both C strings are read: the allocations, then the store when all three fit. */
    method PutPair(k: Key, v: Value) returns (r: int)
      requires Valid() && NulFree(k)
      modifies this, buckets, pool, bloom, bloom.bitmap
      ensures Valid()
      ensures r == 0 || r == -1
      ensures var a := AllocThree(old(pool.pos), POOL_SIZE, ENTRY_SIZE, |k| + 1, |v| + 1);
        (r == 0 <==> a.0) && pool.pos == a.1
      ensures r == 0 ==> Indexes(old(mode), old(count), old(buckets[..]), old(Contents()), k, v)
      ensures old(mode) == HashTreeKvs.RBTree ==> mode == HashTreeKvs.RBTree
      ensures r == 0 ==>
        PutFilter(old(bloom.bitmap[..]), old(bloom.bits), old(bloom.setBits), k, count % EXPAND_EVERY == 0,
                  LiveKeys(Walk()), bloom.bitmap[..], bloom.bits, bloom.setBits)
      ensures r == -1 ==>
        mode == old(mode) && count == old(count) && tree == old(tree) && buckets[..] == old(buckets[..]) &&
        bloom.bitmap == old(bloom.bitmap) && bloom.bitmap[..] == old(bloom.bitmap[..]) &&
        bloom.bits == old(bloom.bits) && bloom.setBits == old(bloom.setBits)
      ensures bloom.bitmap == old(bloom.bitmap) || fresh(bloom.bitmap)
    {
      var ok := Reserve(k, v);
      if !ok {
        return -1;
      }
      Store(k, v);
      r := 0;
    }

    /** The three pool allocations of kvs_put: when all three fit, room for one more counted put. */
    method Reserve(k: Key, v: Value) returns (ok: bool)
      requires Pooled(0)
      modifies pool
      ensures var a := AllocThree(old(pool.pos), POOL_SIZE, ENTRY_SIZE, |k| + 1, |v| + 1);
        ok == a.0 && pool.pos == a.1
      ensures if ok then Pooled(1) else Pooled(0)
    {
      ok := AllocPut(pool, ENTRY_SIZE, |k| + 1, |v| + 1);
    }

    /**
     * The rest of kvs_put once the allocations succeeded: bloom_add; in hash
     * mode the push at the chain head, the count and the conversion at the
     * threshold; in tree mode rbtree_insert and the count, whether or not the
     * key was there.  Every EXPAND_EVERY counted entries the filter may grow.
     */
    method Store(k: Key, v: Value)
      requires Indexed() && Filtered() && NulFree(k)
      requires Pooled(1) && (mode == HashTreeKvs.Hash ==> count < THRESHOLD)
      modifies this, buckets, bloom, bloom.bitmap
      ensures Valid()
      ensures Indexes(old(mode), old(count), old(buckets[..]), old(Contents()), k, v)
      ensures PutFilter(old(bloom.bitmap[..]), old(bloom.bits), old(bloom.setBits), k, count % EXPAND_EVERY == 0,
                        LiveKeys(Walk()), bloom.bitmap[..], bloom.bits, bloom.setBits)
      ensures bloom.bitmap == old(bloom.bitmap) || fresh(bloom.bitmap)
    {
      ghost var m0, bits0, counted0 := bloom.bitmap[..], bloom.bits, bloom.setBits;
      AddIndex(k, v);
      Expand(k, m0, bits0, counted0);
    }

    /**
     * The end of kvs_put, once bloom_add set the bits of k in bitmap m0 of
     * bits0 bits with counted0 bits counted: the check every EXPAND_EVERY
     * entries, after which the filter is as PutFilter says.
     */
    method Expand(ghost k: Key, ghost m0: seq<bv8>, ghost bits0: nat, ghost counted0: nat)
      requires Valid() && WellSized(m0, bits0)
      requires bloom.bits == bits0 && bloom.bitmap[..] == AddIn(m0, bits0, k)
      requires bloom.setBits - counted0 == PopCount(bloom.bitmap[..]) - PopCount(m0)
      modifies bloom
      ensures Valid()
      ensures PutFilter(m0, bits0, counted0, k, count % EXPAND_EVERY == 0, LiveKeys(Walk()),
                        bloom.bitmap[..], bloom.bits, bloom.setBits)
      ensures bloom.bitmap == old(bloom.bitmap) || fresh(bloom.bitmap)
    {
      ghost var m1, s1 := bloom.bitmap[..], bloom.setBits;
      if count % EXPAND_EVERY == 0 {
        CheckExpand();
      }
      PutFilterSteps(m0, bits0, counted0, k, count % EXPAND_EVERY == 0, LiveKeys(Walk()),
                     m1, s1, bloom.bitmap[..], bloom.bits, bloom.setBits);
    }

    /** bloom_add of the key, then the index step: the filter gains the key's bits and counts the new ones. */
    method AddIndex(k: Key, v: Value)
      requires Indexed() && Filtered() && NulFree(k)
      requires Pooled(1) && (mode == HashTreeKvs.Hash ==> count < THRESHOLD)
      modifies this, buckets, bloom, bloom.bitmap
      ensures Valid()
      ensures Indexes(old(mode), old(count), old(buckets[..]), old(Contents()), k, v)
      ensures bloom.bitmap == old(bloom.bitmap) && bloom.bits == old(bloom.bits)
      ensures bloom.bitmap[..] == AddIn(old(bloom.bitmap[..]), bloom.bits, k)
      ensures bloom.setBits - old(bloom.setBits) == PopCount(bloom.bitmap[..]) - old(PopCount(bloom.bitmap[..]))
    {
      ghost var M, L := Contents(), buckets[..];
      AddLive(bloom, M, k, v);
      ghost var bm := bloom.bitmap[..];
      assert Contents() == M && buckets[..] == L;
      Index(k, v);
      assert bloom.bitmap[..] == bm;
    }

    /**
     * What the index step of a put of (k, v) did, from mode mode0 with count0
     * entries counted, chains L0 and contents M0: one more put counted, the key
     * bound; in the same mode to v, and after the conversion at the threshold
     * to what the chains with the new entry pushed give.
     */
    ghost predicate Indexes(mode0: HashTreeKvs.Mode, count0: nat, L0: seq<seq<Entry>>, M0: map<Key, Value>, k: Key, v: Value)
      reads this, buckets
    {
      count == count0 + 1 && Contents().Keys == M0.Keys + {k} &&
      (mode == mode0 ==> Contents() == M0[k := v]) &&
      (mode != mode0 ==>
        mode0 == HashTreeKvs.Hash && count == THRESHOLD && |L0| == BUCKETS &&
        Contents() == LiveMap(Flat(Push(L0, k, v)))) &&
      (mode0 == HashTreeKvs.RBTree ==> mode == HashTreeKvs.RBTree)
    }

    /**
     * The index step of kvs_put: in hash mode the push at the chain head,
     * the count and the conversion at the threshold; in tree mode
     * rbtree_insert and the count.
     */
    method Index(k: Key, v: Value)
      requires Indexed() && NulFree(k) && Pooled(1) && (mode == HashTreeKvs.Hash ==> count < THRESHOLD)
      requires bloom.Valid() && bloom.bits <= MAX_BITS && bloom.bitmap as object != buckets as object
      requires BloomHolds(bloom.bitmap[..], bloom.bits, Contents()[k := v])
      modifies this, buckets
      ensures Valid()
      ensures Indexes(old(mode), old(count), old(buckets[..]), old(Contents()), k, v)
    {
      ghost var M, m := Contents(), bloom.bitmap[..];
      if mode == HashTreeKvs.Hash {
        PutHash(k, v);
        if count >= THRESHOLD {
          Convert();
        }
      } else {
        PutTree(k, v);
      }
      assert bloom.bitmap[..] == m;
      BloomSameKeys(m, bloom.bits, M[k := v], Contents());
    }

    /** The hash-mode step of kvs_put: the new entry pushed at the head of its chain, and counted. */
    method PutHash(k: Key, v: Value)
      requires Indexed() && mode == HashTreeKvs.Hash && NulFree(k)
      modifies this, buckets
      ensures Indexed() && mode == HashTreeKvs.Hash && count == old(count) + 1 && tree == old(tree)
      ensures buckets[..] == Push(old(buckets[..]), k, v)
      ensures Contents() == old(Contents())[k := v]
    {
      var b := BucketOf(k);
      ghost var L := buckets[..];
      HashPush(L, k, v);
      CStrPush(L, k, v);
      buckets[b] := [Entry(k, v, false)] + buckets[b];
      count := count + 1;
      assert buckets[..] == Push(L, k, v);
    }

    /** The tree-mode step of kvs_put: rbtree_insert, and the put counted whatever the key held. */
    method PutTree(k: Key, v: Value)
      requires Indexed() && mode == HashTreeKvs.RBTree && NulFree(k)
      modifies this
      ensures Indexed() && mode == HashTreeKvs.RBTree && count == old(count) + 1
      ensures Contents() == old(Contents())[k := v]
    {
      ghost var L := buckets[..];
      tree := InsertCStr(tree, k, v);
      count := count + 1;
      assert buckets[..] == L;
    }

    /**
     * kvs_convert_to_rbtree: every entry moves into the tree, every chain is
     * cleared and the mode is RBTREE for good.  The keys stay the same; each
     * takes the value of its oldest put (ConvertedValue).
     */
    method Convert()
      requires Indexed() && mode == HashTreeKvs.Hash
      modifies this, buckets
      ensures Indexed() && mode == HashTreeKvs.RBTree && count == old(count)
      ensures Contents() == LiveMap(Flat(old(buckets[..])))
      ensures Contents().Keys == old(Contents()).Keys
    {
      ghost var L := buckets[..];
      ConvertKeys(L);
      tree := BuildTree(buckets[..]);
      HashTreeKvs.ClearBuckets(buckets);
      mode := HashTreeKvs.RBTree;
    }

    /**
     * bloom_check_expand: once the filter is at least half full and below its
     * cap, bloom_expand gives it a zeroed bitmap four times larger (at most
     * the cap) and re-adds the key of every entry of the active index.
     */
    method CheckExpand()
      requires Valid()
      modifies bloom
      ensures Valid()
      ensures old(bloom.ShouldExpand()) ==>
        bloom.bits == GrownBits(old(bloom.bits)) &&
        bloom.bitmap[..] == AddKeys(Zeros(bloom.bits / 8), bloom.bits, LiveKeys(Walk())) &&
        bloom.setBits == PopCount(bloom.bitmap[..])
      ensures !old(bloom.ShouldExpand()) ==>
        bloom.bitmap == old(bloom.bitmap) && bloom.bits == old(bloom.bits) && bloom.setBits == old(bloom.setBits)
      ensures bloom.bitmap == old(bloom.bitmap) || fresh(bloom.bitmap)
    {
      if bloom.ShouldExpand() {
        var grew := bloom.Grow();
        ghost var m0 := bloom.bitmap[..];
        PopCountZeros(bloom.bits / 8);
        if mode == HashTreeKvs.Hash {
          BPlusTreeKvs.Rebuild(bloom, buckets[..]);
          RebuiltHolds(m0, bloom.bits, Flat(buckets[..]));
          ConvertKeys(buckets[..]);
          BloomSameKeys(bloom.bitmap[..], bloom.bits, LiveMap(Flat(buckets[..])), Contents());
        } else {
          StackSuffices(tree);
          AddTreeKeysStack(bloom, tree);
          RebuiltHolds(m0, bloom.bits, Inorder(tree));
        }
      }
    }

    /**
     * kvs_get: NULL (None) when the filter rules the key out; otherwise the
     * first match of the key's chain in hash mode, or rbtree_search in tree
     * mode.
     */
    method Get(key: seq<byte>) returns (r: Option<Value>)
      requires Valid()
      ensures r == if CStr(key) in Contents() then Some(Contents()[CStr(key)]) else None
    {
      var k := CStr(key);
      if !bloom.Maybe(k) {
        return None;
      }
      if mode == HashTreeKvs.Hash {
        var c := buckets[BucketOf(k)];
        var j := ChainFind(c, k);
        FirstMapAt(c, k, j);
        HashLookup(buckets[..], k);
        r := if j < |c| then Some(c[j].value) else None;
      } else {
        r := SearchValue(tree, key);
      }
    }
  }

  /** A filter that lets every key of M1 through lets through every key of a map with fewer keys. */
  lemma BloomSameKeys(m: seq<bv8>, bits: nat, M1: map<Key, Value>, M2: map<Key, Value>)
    requires BloomHolds(m, bits, M1) && M2.Keys <= M1.Keys
    ensures BloomHolds(m, bits, M2)
  {
    forall k | k in M2 ensures MaybeIn(m, bits, k) {
      assert k in M1.Keys;
    }
  }
}
