/**
 * The engine of hash_rbtree/kvs.c: a chained hash table with tombstones
 * (struct KVS at lines 35-53) that converts itself, once and for good, into a
 * red-black tree of the same entries when db->count reaches the threshold or
 * on kvs_compact.  Both indexes share the bloom filter and the pool.
 *
 * The buckets are an array of chains, each chain head first; an entry is a
 * value, and the in-place writes of the C code (`cur->value = v`,
 * `e->deleted = 1`) replace the entry in its chain.  The tree is a RedBlack
 * value.  In tree mode db->count is incremented by every successful put, also
 * when the key was live already (lines 354-359); the ghost field `overcount`
 * records how far db->count is then above the number of live keys.
 */
module HashTreeKvs {
  import opened Keys
  import opened Wrappers
  import opened Arena
  import opened Bloom
  import opened BPlusTree
  import opened BPlusTreeProofs
  import opened BPlusTreeWalk
  import opened RedBlack
  import opened HashTable
  import BPlusTreeKvs
  import Status
  import Seqs

  /** sizeof(Entry) on LP64: two pointers, two uint32_t, a uint8_t and a pointer, padded to 40. */
  const ENTRY_SIZE: nat := 40

  /** kvs_put_raw checks the bloom filter for growth every this many counted entries. */
  const EXPAND_EVERY: nat := 1000

  /** KVS_MODE_HASH, KVS_MODE_RBTREE */
  datatype Mode = Hash | RBTree

  /** What kvs_stats fills in; the fill rate is given as its two integer parts. */
  datatype Stats = Stats(count: nat, memoryUsed: nat, bloomBits: nat, bloomSetBits: nat, mode: Mode)

  // ===== chains with tombstones =====

  /** At most one live entry per key: a put overwrites a live match instead of pushing a second one. */
  ghost predicate OneLive(c: seq<Entry>)
  {
    forall i, j :: 0 <= i < j < |c| && c[i].key == c[j].key ==> c[i].deleted || c[j].deleted
  }

  ghost predicate AllOneLive(L: seq<seq<Entry>>)
  {
    forall i :: 0 <= i < |L| ==> OneLive(L[i])
  }

  /** The live map of each chain. */
  function LiveMaps(L: seq<seq<Entry>>): (r: seq<map<Key, Value>>)
    ensures |r| == |L| && forall i :: 0 <= i < |L| ==> r[i] == LiveMap(L[i])
  {
    seq(|L|, i requires 0 <= i < |L| => LiveMap(L[i]))
  }

  /** j is where the chain walk of put, get, exists and delete stops: the first live entry with key k, or |c|. */
  ghost predicate FirstLive(c: seq<Entry>, k: Key, j: nat)
  {
    j <= |c| && (forall i :: 0 <= i < j ==> c[i].key != k || c[i].deleted) &&
    (j < |c| ==> c[j].key == k && !c[j].deleted)
  }

  /**
   * The chain walk `while (e) { if (e->klen == klen && memcmp(...) == 0 &&
   * !e->deleted) ...; e = e->hash_next; }`.
   */
  method FindLive(c: seq<Entry>, k: Key) returns (j: nat)
    ensures FirstLive(c, k, j)
  {
    j := 0;
    while j < |c| && !(SameBytes(c[j].key, k) && !c[j].deleted)
      invariant j <= |c| && forall i :: 0 <= i < j ==> c[i].key != k || c[i].deleted
    {
      SameBytesIsEqual(c[j].key, k);
      j := j + 1;
    }
    if j < |c| {
      SameBytesIsEqual(c[j].key, k);
    }
  }

  /** The chain around its j-th entry, with the key of that entry bound nowhere else. */
  lemma ChainAround(c: seq<Entry>, k: Key, j: nat)
    requires OneLive(c) && FirstLive(c, k, j) && j < |c|
    ensures c == c[..j] + [c[j]] + c[j + 1..]
    ensures k !in LiveMap(c[..j]) && k !in LiveMap(c[j + 1..])
  {
    var A, B := c[..j], c[j + 1..];
    assert c == A + [c[j]] + B;
    LiveMapAbsent(A, k);
    forall i | 0 <= i < |B| && B[i].key == k ensures B[i].deleted {
      assert B[i] == c[j + 1 + i];
    }
    LiveMapAbsent(B, k);
  }

  /** The walk's result decides the lookup: k is live in the chain exactly when the walk stopped on an entry, whose value it has. */
  lemma ChainLookup(c: seq<Entry>, k: Key, j: nat)
    requires OneLive(c) && FirstLive(c, k, j)
    ensures k in LiveMap(c) <==> j < |c|
    ensures j < |c| ==> LiveMap(c)[k] == c[j].value
  {
    if j == |c| {
      LiveMapAbsent(c, k);
    } else {
      ChainAround(c, k, j);
      var A, B := c[..j], c[j + 1..];
      LiveMapAppend(A + [c[j]], B);
      LiveMapAppend(A, [c[j]]);
      LiveMapOne(c[j]);
    }
  }

  /** Replacing an entry by one with the same key, live only if the old one was, keeps one live entry per key. */
  lemma OneLiveReplace(c: seq<Entry>, j: nat, e: Entry)
    requires OneLive(c) && j < |c| && e.key == c[j].key && (c[j].deleted ==> e.deleted)
    ensures OneLive(c[j := e])
  {
  }

  /** Pushing an entry whose key has no live entry in the chain keeps one live entry per key. */
  lemma OneLivePush(c: seq<Entry>, e: Entry)
    requires OneLive(c) && forall i :: 0 <= i < |c| && c[i].key == e.key ==> c[i].deleted
    ensures OneLive([e] + c)
  {
    var c2 := [e] + c;
    forall i, j | 0 <= i < j < |c2| && c2[i].key == c2[j].key ensures c2[i].deleted || c2[j].deleted {
      if i == 0 {
        assert c2[j] == c[j - 1];
      } else {
        assert c2[i] == c[i - 1] && c2[j] == c[j - 1];
      }
    }
  }

  /** The live map of a chain split around its j-th entry, whose key is bound nowhere else. */
  lemma LiveMapSplit(c: seq<Entry>, k: Key, j: nat, e: Entry)
    requires OneLive(c) && FirstLive(c, k, j) && j < |c| && e.key == k
    ensures var A, B := c[..j], c[j + 1..];
      k !in LiveMap(A) && k !in LiveMap(B) &&
      LiveMap(c) == LiveMap(A) + LiveMap([c[j]]) + LiveMap(B) &&
      LiveMap(c[j := e]) == LiveMap(A) + LiveMap([e]) + LiveMap(B)
  {
    ChainAround(c, k, j);
    var A, B := c[..j], c[j + 1..];
    assert c[j := e] == A + [e] + B;
    LiveMapAppend(A + [c[j]], B);
    LiveMapAppend(A, [c[j]]);
    LiveMapAppend(A + [e], B);
    LiveMapAppend(A, [e]);
  }

  lemma MiddleSet(MA: map<Key, Value>, MB: map<Key, Value>, k: Key, w: Value, v: Value)
    requires k !in MB
    ensures (MA + map[k := w] + MB)[k := v] == MA + map[k := v] + MB
  {
  }

  lemma MiddleRemove(MA: map<Key, Value>, MB: map<Key, Value>, k: Key, w: Value)
    requires k !in MA && k !in MB
    ensures (MA + map[k := w] + MB) - {k} == MA + map[] + MB
  {
  }

  /** Overwriting the live match's value (`cur->value = v`) rebinds the key and keeps one live entry per key. */
  lemma ChainOverwrite(c: seq<Entry>, k: Key, j: nat, v: Value)
    requires OneLive(c) && FirstLive(c, k, j) && j < |c|
    ensures OneLive(c[j := c[j].(value := v)])
    ensures LiveMap(c[j := c[j].(value := v)]) == LiveMap(c)[k := v]
  {
    var e := c[j].(value := v);
    OneLiveReplace(c, j, e);
    LiveMapSplit(c, k, j, e);
    LiveMapOne(c[j]);
    LiveMapOne(e);
    MiddleSet(LiveMap(c[..j]), LiveMap(c[j + 1..]), k, c[j].value, v);
  }

  /** Pushing a live entry at the head of a chain without a live match binds its key. */
  lemma ChainPush(c: seq<Entry>, e: Entry)
    requires OneLive(c) && FirstLive(c, e.key, |c|) && !e.deleted
    ensures OneLive([e] + c)
    ensures LiveMap([e] + c) == LiveMap(c)[e.key := e.value]
  {
    OneLivePush(c, e);
    LiveMapAbsent(c, e.key);
    LiveMapAppend([e], c);
    LiveMapOne(e);
  }

  /** Flagging the live match deleted (`e->deleted = 1`) unbinds its key. */
  lemma ChainKill(c: seq<Entry>, k: Key, j: nat)
    requires OneLive(c) && FirstLive(c, k, j) && j < |c|
    ensures OneLive(c[j := c[j].(deleted := true)])
    ensures LiveMap(c[j := c[j].(deleted := true)]) == LiveMap(c) - {k}
  {
    var e := c[j].(deleted := true);
    OneLiveReplace(c, j, e);
    LiveMapSplit(c, k, j, e);
    LiveMapOne(c[j]);
    LiveMapOne(e);
    MiddleRemove(LiveMap(c[..j]), LiveMap(c[j + 1..]), k, c[j].value);
  }

  // ===== the whole table =====

  lemma LiveMapsPlaced(L: seq<seq<Entry>>)
    requires Placed(L)
    ensures MapsPlaced(LiveMaps(L))
  {
    forall i, k | 0 <= i < |L| && k in LiveMaps(L)[i] ensures BucketOf(k) == i {
      var j := LiveMapHas(L[i], k);
    }
  }

  /** The live map of the bucket-by-bucket walk is the union of the chains' live maps. */
  lemma {:induction false} FlatUnion(L: seq<seq<Entry>>)
    ensures LiveMap(Flat(L)) == Union(LiveMaps(L))
    decreases |L|
  {
    if |L| > 0 {
      var n := |L| - 1;
      FlatUnion(L[..n]);
      LiveMapAppend(Flat(L[..n]), L[n]);
      assert LiveMaps(L)[..n] == LiveMaps(L[..n]);
    }
  }

  /** A key is live in the table exactly when it is live in its own chain. */
  lemma TableLookup(L: seq<seq<Entry>>, k: Key)
    requires Placed(L) && |L| == BUCKETS
    ensures k in LiveMap(Flat(L)) <==> k in LiveMap(L[BucketOf(k)])
    ensures k in LiveMap(Flat(L)) ==> LiveMap(Flat(L))[k] == LiveMap(L[BucketOf(k)])[k]
  {
    FlatUnion(L);
    LiveMapsPlaced(L);
    UnionLookup(LiveMaps(L), k);
  }

  ghost predicate ChainPlaced(c: seq<Entry>, b: nat)
  {
    forall j :: 0 <= j < |c| ==> BucketOf(c[j].key) == b
  }

  /** Rebinding k in its own chain rebinds it in the table. */
  lemma TableSet(L: seq<seq<Entry>>, k: Key, v: Value, c2: seq<Entry>)
    requires Placed(L) && |L| == BUCKETS
    requires ChainPlaced(c2, BucketOf(k)) && LiveMap(c2) == LiveMap(L[BucketOf(k)])[k := v]
    ensures Placed(L[BucketOf(k) := c2])
    ensures LiveMap(Flat(L[BucketOf(k) := c2])) == LiveMap(Flat(L))[k := v]
  {
    var b := BucketOf(k);
    LiveMapsPlaced(L);
    UnionUpdate(LiveMaps(L), k, v);
    assert LiveMaps(L[b := c2]) == LiveMaps(L)[b := LiveMaps(L)[b][k := v]];
    FlatUnion(L);
    FlatUnion(L[b := c2]);
  }

  /** Unbinding k in its own chain unbinds it in the table. */
  lemma TableRemove(L: seq<seq<Entry>>, k: Key, c2: seq<Entry>)
    requires Placed(L) && |L| == BUCKETS
    requires ChainPlaced(c2, BucketOf(k)) && LiveMap(c2) == LiveMap(L[BucketOf(k)]) - {k}
    ensures Placed(L[BucketOf(k) := c2])
    ensures LiveMap(Flat(L[BucketOf(k) := c2])) == LiveMap(Flat(L)) - {k}
  {
    var b := BucketOf(k);
    LiveMapsPlaced(L);
    UnionRemove(LiveMaps(L), k);
    assert LiveMaps(L[b := c2]) == LiveMaps(L)[b := LiveMaps(L)[b] - {k}];
    FlatUnion(L);
    FlatUnion(L[b := c2]);
  }

  lemma AllOneLiveSet(L: seq<seq<Entry>>, b: nat, c2: seq<Entry>)
    requires AllOneLive(L) && b < |L| && OneLive(c2)
    ensures AllOneLive(L[b := c2])
  {
  }

  lemma {:induction false} FlatEmpty(L: seq<seq<Entry>>)
    requires forall i :: 0 <= i < |L| ==> L[i] == []
    ensures Flat(L) == []
    decreases |L|
  {
    if |L| > 0 {
      FlatEmpty(L[..|L| - 1]);
    }
  }

  /** No two live entries share a key. */
  ghost predicate LiveDistinct(F: seq<Entry>)
  {
    forall i, j :: 0 <= i < j < |F| && !F[i].deleted && !F[j].deleted ==> F[i].key != F[j].key
  }

  /** With distinct live keys there are as many live pairs as live keys. */
  lemma {:induction false} LiveCard(F: seq<Entry>)
    requires LiveDistinct(F)
    ensures |LivePairs(F)| == |LiveMap(F)|
    decreases |F|
  {
    if |F| > 0 {
      var n := |F| - 1;
      assert LiveDistinct(F[..n]) by {
        forall i, j | 0 <= i < j < n && !F[..n][i].deleted && !F[..n][j].deleted ensures F[..n][i].key != F[..n][j].key {
          assert F[..n][i] == F[i] && F[..n][j] == F[j];
        }
      }
      LiveCard(F[..n]);
      if !F[n].deleted {
        forall i | 0 <= i < n && F[..n][i].key == F[n].key ensures F[..n][i].deleted {
          assert F[..n][i] == F[i];
        }
        LiveMapAbsent(F[..n], F[n].key);
      }
    }
  }

  /** A placed table walked bucket by bucket never meets a live key twice. */
  lemma {:induction false} FlatDistinct(L: seq<seq<Entry>>)
    requires Placed(L) && AllOneLive(L)
    ensures LiveDistinct(Flat(L))
    ensures forall p :: 0 <= p < |Flat(L)| ==> BucketOf(Flat(L)[p].key) < |L|
    decreases |L|
  {
    if |L| > 0 {
      var n := |L| - 1;
      PrefixPlaced(L, n);
      FlatDistinct(L[..n]);
      assert ChainPlaced(L[n], n);
      DistinctSnoc(Flat(L[..n]), L[n], n);
    }
  }

  lemma PrefixPlaced(L: seq<seq<Entry>>, n: nat)
    requires Placed(L) && AllOneLive(L) && n <= |L|
    ensures Placed(L[..n]) && AllOneLive(L[..n])
  {
    forall i, j | 0 <= i < n && 0 <= j < |L[..n][i]| ensures BucketOf(L[..n][i][j].key) == i {
      assert L[..n][i] == L[i];
    }
    forall i | 0 <= i < n ensures OneLive(L[..n][i]) {
      assert L[..n][i] == L[i];
    }
  }

  /** Appending the chain of bucket n to a walk of the buckets below n keeps the live keys distinct. */
  lemma DistinctSnoc(P: seq<Entry>, c: seq<Entry>, n: nat)
    requires LiveDistinct(P) && OneLive(c) && ChainPlaced(c, n)
    requires forall p :: 0 <= p < |P| ==> BucketOf(P[p].key) < n
    ensures LiveDistinct(P + c)
    ensures forall p :: 0 <= p < |P + c| ==> BucketOf((P + c)[p].key) < n + 1
  {
    var F := P + c;
    forall p | 0 <= p < |F| ensures BucketOf(F[p].key) < n + 1 {
      if p >= |P| {
        assert F[p] == c[p - |P|];
      }
    }
    forall i, j | 0 <= i < j < |F| && !F[i].deleted && !F[j].deleted ensures F[i].key != F[j].key {
      if j < |P| {
        assert F[i] == P[i] && F[j] == P[j];
      } else if i < |P| {
        assert F[i] == P[i] && F[j] == c[j - |P|];
      } else {
        assert F[i] == c[i - |P|] && F[j] == c[j - |P|];
      }
    }
  }

  // ===== the chain steps of put, get and delete =====

  /**
   * The hash-mode part of kvs_put_raw on the key's chain: overwrite the value
   * of a live match, or else push a new live entry at the head.
   */
  method ChainPut(c: seq<Entry>, key: Key, value: Value) returns (c2: seq<Entry>, pushed: bool)
    requires OneLive(c)
    ensures OneLive(c2) && LiveMap(c2) == LiveMap(c)[key := value]
    ensures pushed <==> key !in LiveMap(c)
    ensures pushed ==> c2 == [Entry(key, value, false)] + c
    ensures !pushed ==> |c2| == |c| && forall j :: 0 <= j < |c| ==> c2[j].key == c[j].key && c2[j].deleted == c[j].deleted
  {
    var j := FindLive(c, key);
    ChainLookup(c, key, j);
    if j < |c| {
      ChainOverwrite(c, key, j, value);
      c2, pushed := c[j := c[j].(value := value)], false;
    } else {
      ChainPush(c, Entry(key, value, false));
      c2, pushed := [Entry(key, value, false)] + c, true;
    }
  }

  /** The hash-mode lookup of kvs_get_raw and kvs_exists on the key's chain. */
  method ChainGet(c: seq<Entry>, key: Key) returns (r: Option<Value>)
    requires OneLive(c)
    ensures r == if key in LiveMap(c) then Some(LiveMap(c)[key]) else None
  {
    var j := FindLive(c, key);
    ChainLookup(c, key, j);
    if j < |c| {
      r := Some(c[j].value);
    } else {
      r := None;
    }
  }

  /** The hash-mode part of kvs_delete on the key's chain: flag the live match deleted. */
  method ChainDelete(c: seq<Entry>, key: Key) returns (c2: seq<Entry>, found: bool)
    requires OneLive(c)
    ensures OneLive(c2) && LiveMap(c2) == LiveMap(c) - {key}
    ensures found <==> key in LiveMap(c)
    ensures |c2| == |c| && forall j :: 0 <= j < |c| ==> c2[j].key == c[j].key
    ensures !found ==> c2 == c
  {
    var j := FindLive(c, key);
    ChainLookup(c, key, j);
    if j < |c| {
      ChainKill(c, key, j);
      c2, found := c[j := c[j].(deleted := true)], true;
    } else {
      Seqs.RemoveAbsent(LiveMap(c), key);
      c2, found := c, false;
    }
  }

  lemma SameKeysPlaced(c: seq<Entry>, c2: seq<Entry>, b: nat)
    requires ChainPlaced(c, b) && |c2| == |c| && forall j :: 0 <= j < |c| ==> c2[j].key == c[j].key
    ensures ChainPlaced(c2, b)
  {
  }

  // ===== the tree-mode steps =====

  /** The tree-mode lookup of kvs_get_raw, kvs_exists and kvs_delete: rbtree_search, then the tombstone test. */
  method TreeGet(t: Tree, key: Key) returns (r: Option<Value>)
    requires IsRBTree(t)
    ensures r == if key in LiveMap(Inorder(t)) then Some(LiveMap(Inorder(t))[key]) else None
  {
    var found := Search(t, key);
    if found.Some? {
      FoundLive(Inorder(t), found.value);
    } else {
      assert found.None?;
      assert forall i :: 0 <= i < |Inorder(t)| ==> Inorder(t)[i].key != key;
      LiveMapAbsent(Inorder(t), key);
    }
    if found.Some? && !found.value.deleted {
      r := Some(found.value.value);
    } else {
      r := None;
    }
  }

  /** n cleared chains. */
  function Empties(n: nat): (r: seq<seq<Entry>>)
    ensures |r| == n && forall i :: 0 <= i < n ==> r[i] == []
  {
    seq(n, _ => [])
  }

  lemma FlatSnoc(L: seq<seq<Entry>>, i: nat)
    requires i < |L|
    ensures Flat(L[..i + 1]) == Flat(L[..i]) + L[i]
  {
    assert L[..i + 1][..i] == L[..i];
  }

  /** The tree-mode update of kvs_put_raw: rbtree_insert of a live entry, which overwrites an equal key's entry. */
  method TreePut(t: Tree, key: Key, value: Value) returns (t2: Tree)
    requires IsRBTree(t)
    ensures IsRBTree(t2) && LiveMap(Inorder(t2)) == LiveMap(Inorder(t))[key := value]
    ensures |Inorder(t2)| <= |Inorder(t)| + 1
    ensures forall i :: 0 <= i < |Inorder(t2)| ==> Inorder(t2)[i] == Entry(key, value, false) || Inorder(t2)[i] in Inorder(t)
  {
    RedBlack.InsertLive(t, Entry(key, value, false));
    t2 := Insert(t, Entry(key, value, false));
    InsertSortedLength(Inorder(t), Entry(key, value, false));
    InsertSortedMembers(Inorder(t), Entry(key, value, false));
  }

  /** The tree-mode part of kvs_delete: rbtree_search, and the live entry found flagged deleted. */
  method TreeDelete(t: Tree, k: Key) returns (t2: Tree, found: bool)
    requires IsRBTree(t)
    ensures IsRBTree(t2) && LiveMap(Inorder(t2)) == LiveMap(Inorder(t)) - {k}
    ensures found <==> k in LiveMap(Inorder(t))
  {
    var v := TreeGet(t, k);
    found := v.Some?;
    if found {
      MarkTreeValid(t, k);
      t2 := MarkTree(t, k);
    } else {
      Seqs.RemoveAbsent(LiveMap(Inorder(t)), k);
      t2 := t;
    }
  }

  /**
   * The tree kvs_convert_to_rbtree builds: every live entry of every chain,
   * bucket by bucket and head first, goes into the (empty) tree.
   */
  method BuildTree(L: seq<seq<Entry>>) returns (t: Tree)
    ensures IsRBTree(t) && LiveMap(Inorder(t)) == LiveMap(Flat(L))
  {
    t := Nil;
    var i := 0;
    ghost var G: seq<Entry> := [];
    while i < |L|
      invariant i <= |L| && G == Flat(L[..i])
      invariant IsRBTree(t) && LiveMap(Inorder(t)) == LiveMap(G)
    {
      t := InsertChain(t, L[i], G);
      FlatSnoc(L, i);
      G := G + L[i];
      i := i + 1;
    }
    WalkDone(L);
  }

  /** The `db->buckets[i] = NULL` of kvs_convert_to_rbtree: every chain emptied. */
  method ClearBuckets(buckets: array<seq<Entry>>)
    modifies buckets
    ensures buckets[..] == Empties(buckets.Length)
  {
    var i := 0;
    while i < buckets.Length
      invariant i <= buckets.Length
      invariant forall m :: 0 <= m < i ==> buckets[m] == []
    {
      buckets[i] := [];
      i := i + 1;
    }
    assert buckets[..] == Empties(buckets.Length);
  }

  lemma EmptiesShaped(L: seq<seq<Entry>>)
    requires L == Empties(|L|)
    ensures Placed(L) && AllOneLive(L) && forall i :: 0 <= i < |L| ==> L[i] == []
  {
  }

  /** The inner loop of kvs_convert_to_rbtree: each live entry of one chain, head first, into the tree. */
  method InsertChain(t: Tree, c: seq<Entry>, ghost G: seq<Entry>) returns (t2: Tree)
    requires IsRBTree(t) && LiveMap(Inorder(t)) == LiveMap(G)
    ensures IsRBTree(t2) && LiveMap(Inorder(t2)) == LiveMap(G + c)
  {
    t2 := t;
    var j := 0;
    assert G + c[..0] == G;
    while j < |c|
      invariant j <= |c|
      invariant IsRBTree(t2) && LiveMap(Inorder(t2)) == LiveMap(G + c[..j])
    {
      LiveMapStep(G, c, j);
      if !c[j].deleted {
        t2 := TreePut(t2, c[j].key, c[j].value);
      }
      j := j + 1;
    }
    assert c[..j] == c;
  }

  /** One more entry of a chain walked: its binding, if live, is added last. */
  lemma LiveMapStep(G: seq<Entry>, c: seq<Entry>, j: nat)
    requires j < |c|
    ensures LiveMap(G + c[..j + 1]) ==
      if c[j].deleted then LiveMap(G + c[..j]) else LiveMap(G + c[..j])[c[j].key := c[j].value]
  {
    assert G + c[..j + 1] == (G + c[..j]) + [c[j]];
    LiveMapAppend(G + c[..j], [c[j]]);
    LiveMapOne(c[j]);
  }

  /** rbtree_inorder with bloom_rehash_entry: re-add every live key of the tree, in key order. */
  method AddTreeKeys(f: Filter, t: Tree)
    requires f.Valid()
    modifies f, f.bitmap
    ensures f.Valid() && f.bitmap == old(f.bitmap) && f.bits == old(f.bits)
    ensures f.bitmap[..] == AddKeys(old(f.bitmap[..]), f.bits, LiveKeys(Inorder(t)))
    ensures f.setBits - old(f.setBits) == PopCount(f.bitmap[..]) - old(PopCount(f.bitmap[..]))
    decreases t
  {
    if t.Node? {
      ghost var m0 := f.bitmap[..];
      var A, B := Inorder(t.left), Inorder(t.right);
      var e := t.entry;
      AddTreeKeys(f, t.left);
      ghost var m1 := f.bitmap[..];
      if !e.deleted {
        f.Add(e.key);
      }
      LiveKeysSnoc(A, e);
      AddKeysAppend(m0, f.bits, LiveKeys(A), LiveKeys([e]));
      assert LiveKeys(A + [e]) == LiveKeys(A) + LiveKeys([e]) by {
        LiveKeysAppend(A, [e]);
      }
      AddTreeKeys(f, t.right);
      LiveKeysAppend(A + [e], B);
      AddKeysAppend(m0, f.bits, LiveKeys(A + [e]), LiveKeys(B));
    } else {
      assert LiveKeys([]) == [];
    }
  }

  /** rbtree_inorder with iter_entry: the live pairs of the tree in key order. */
  method InorderPairs(t: Tree) returns (visited: seq<(Key, Value)>)
    ensures visited == LivePairs(Inorder(t))
    decreases t
  {
    if t.Nil? {
      return [];
    }
    var left := InorderPairs(t.left);
    var right := InorderPairs(t.right);
    var e := t.entry;
    visited := left + (if e.deleted then [] else [(e.key, e.value)]) + right;
    LivePairsSnoc(Inorder(t.left), e);
    LivePairsAppend(Inorder(t.left) + [e], Inorder(t.right));
  }

  /** kvs_foreach in hash mode: every live entry, bucket by bucket and head first, counted. */
  method WalkTable(L: seq<seq<Entry>>) returns (visited: seq<(Key, Value)>, n: nat)
    ensures visited == LivePairs(Flat(L)) && n == |visited|
  {
    visited, n := [], 0;
    var li := 0;
    while li < |L|
      invariant li <= |L|
      invariant visited == LivePairs(Flat(L[..li])) && n == |visited|
    {
      var es := L[li];
      var i := 0;
      assert L[li][..0] == [] && Flat(L[..li]) + [] == Flat(L[..li]);
      while i < |es|
        invariant i <= |es|
        invariant visited == LivePairs(Flat(L[..li]) + es[..i]) && n == |visited|
      {
        WalkStep(L, li, i);
        LivePairsSnoc(Flat(L[..li]) + es[..i], es[i]);
        if !es[i].deleted {
          visited := visited + [(es[i].key, es[i].value)];
          n := n + 1;
        }
        i := i + 1;
      }
      WalkLeafDone(L, li);
      li := li + 1;
    }
    WalkDone(L);
  }

  lemma MapRemoveCard(m: map<Key, Value>, k: Key)
    requires k in m
    ensures |m - {k}| == |m| - 1
  {
    assert (m - {k}).Keys == m.Keys - {k};
  }

  class Kvs {
    var mode: Mode
    var count: nat
    const buckets: array<seq<Entry>>
    var tree: Tree
    const pool: Pool
    const bloom: Filter
    const filepath: Option<seq<byte>>

    /** How far db->count is above the number of live keys: one for each tree-mode put of a key that was live. */
    ghost var overcount: nat

    /** The entries in the order kvs_foreach and bloom_expand visit them in the active index. */
    ghost function Walk(): seq<Entry>
      reads this, buckets
    {
      if mode == Hash then Flat(buckets[..]) else Inorder(tree)
    }

    /** The live key/value map: what get, exists and foreach observe. */
    ghost function Contents(): map<Key, Value>
      reads this, buckets
    {
      LiveMap(Walk())
    }

    /**
     * The two indexes: 8192 chains, each entry in the chain of its key, at
     * most one live entry per key in a chain; a red-black tree, empty in hash
     * mode; no chain left in tree mode.
     */
    ghost predicate Indexed()
      reads this, buckets
    {
      buckets.Length == BUCKETS && Placed(buckets[..]) && AllOneLive(buckets[..]) &&
      IsRBTree(tree) &&
      (mode == Hash ==> tree == Nil && overcount == 0) &&
      (mode == RBTree ==> buckets[..] == Empties(BUCKETS))
    }

    /**
     * The state between the steps of an operation: the indexes; count the
     * number of live keys plus the tree-mode overcount; a pool of the default
     * size; and every live key passes the bloom filter.
     */
    ghost predicate Shaped()
      reads this, buckets, pool, bloom, bloom.bitmap
    {
      Indexed() &&
      count == |Contents()| + overcount &&
      pool.Valid() && pool.size == POOL_SIZE &&
      bloom.Valid() && bloom.bits <= MAX_BITS && bloom.bitmap as object != buckets as object &&
      BloomHolds(bloom.bitmap[..], bloom.bits, Contents())
    }

    /** Between operations the table never holds the threshold's worth of entries: it has been converted by then. */
    ghost predicate Valid()
      reads this, buckets, pool, bloom, bloom.bitmap
    {
      Shaped() && (mode == Hash ==> count < THRESHOLD)
    }

    /** kvs_open: empty chains, an empty tree, hash mode, an empty filter and pool. */
    constructor (path: Option<seq<byte>>)
      ensures Valid() && fresh(buckets) && fresh(pool) && fresh(bloom) && fresh(bloom.bitmap)
      ensures mode == Hash && count == 0 && Contents() == map[] && filepath == path
      ensures pool.pos == 0 && bloom.bits == INIT_BITS && bloom.setBits == 0
    {
      mode := Hash;
      count := 0;
      buckets := new seq<Entry>[BUCKETS](_ => []);
      tree := Nil;
      pool := new Pool(POOL_SIZE);
      bloom := new Filter();
      filepath := path;
      overcount := 0;
      new;
      FlatEmpty(buckets[..]);
    }

    /**
     * kvs_put_raw: three pool allocations, all made before any is checked;
     * NOMEM if one failed, with index, count and filter untouched; otherwise
     * the pair is stored.
     */
    method PutRaw(key: Key, value: Value) returns (r: int)
      requires Valid()
      modifies this, buckets, pool, bloom, bloom.bitmap
      ensures Valid()
      ensures r == Status.OK || r == Status.NOMEM
      ensures var a := AllocThree(old(pool.pos), POOL_SIZE, ENTRY_SIZE, |key| + 1, |value| + 1);
        (r == Status.OK <==> a.0) && pool.pos == a.1
      ensures r == Status.OK ==> Contents() == old(Contents())[key := value]
      ensures r == Status.OK ==> count == old(count) + (if old(mode) == Hash && key in old(Contents()) then 0 else 1)
      ensures r == Status.OK && old(mode) == Hash ==> (mode == RBTree <==> key !in old(Contents()) && old(count) + 1 == THRESHOLD)
      ensures old(mode) == RBTree ==> mode == RBTree
      ensures r == Status.OK ==>
        PutFilter(old(bloom.bitmap[..]), old(bloom.bits), old(bloom.setBits), key,
                  count == old(count) + 1 && count % EXPAND_EVERY == 0, LiveKeys(Walk()),
                  bloom.bitmap[..], bloom.bits, bloom.setBits)
      ensures r == Status.NOMEM ==>
        mode == old(mode) && count == old(count) && tree == old(tree) && buckets[..] == old(buckets[..]) &&
        bloom.bitmap == old(bloom.bitmap) && bloom.bitmap[..] == old(bloom.bitmap[..]) &&
        bloom.bits == old(bloom.bits) && bloom.setBits == old(bloom.setBits)
      ensures bloom.bitmap == old(bloom.bitmap) || fresh(bloom.bitmap)
    {
      ghost var L, bm := buckets[..], bloom.bitmap[..];
      var ok := AllocPut(pool, ENTRY_SIZE, |key| + 1, |value| + 1);
      assert buckets[..] == L && bloom.bitmap[..] == bm;
      if !ok {
        return Status.NOMEM;
      }
      Store(key, value);
      r := Status.OK;
    }

    /**
     * The rest of kvs_put_raw once the allocations succeeded: bloom_add, then
     * in hash mode overwrite a live match (returning at once) or push at the
     * head, count it and convert at the threshold; in tree mode rbtree_insert
     * and count the put.  Every EXPAND_EVERY counted entries the filter may
     * grow.
     */
    method Store(key: Key, value: Value)
      requires Valid()
      modifies this, buckets, bloom, bloom.bitmap
      ensures Valid() && Contents() == old(Contents())[key := value]
      ensures count == old(count) + (if old(mode) == Hash && key in old(Contents()) then 0 else 1)
      ensures old(mode) == Hash ==> (mode == RBTree <==> key !in old(Contents()) && old(count) + 1 == THRESHOLD)
      ensures old(mode) == RBTree ==> mode == RBTree
      ensures PutFilter(old(bloom.bitmap[..]), old(bloom.bits), old(bloom.setBits), key,
                        count == old(count) + 1 && count % EXPAND_EVERY == 0, LiveKeys(Walk()),
                        bloom.bitmap[..], bloom.bits, bloom.setBits)
      ensures bloom.bitmap == old(bloom.bitmap) || fresh(bloom.bitmap)
    {
      ghost var m0, bits0, counted0, n0 := bloom.bitmap[..], bloom.bits, bloom.setBits, count;
      AddLive(bloom, Contents(), key, value);
      ghost var m1, s1 := bloom.bitmap[..], bloom.setBits;
      var counted := Place(key, value);
      if counted && count % EXPAND_EVERY == 0 {
        CheckExpand();
      }
      PutFilterSteps(m0, bits0, counted0, key, count == n0 + 1 && count % EXPAND_EVERY == 0, LiveKeys(Walk()),
                     m1, s1, bloom.bitmap[..], bloom.bits, bloom.setBits);
    }

    /**
     * The index step of kvs_put_raw, after bloom_add: in hash mode overwrite a
     * live match (the early return, not counted) or push at the head, count it
     * and convert at the threshold; in tree mode rbtree_insert and count the put.
     */
    method Place(key: Key, value: Value) returns (counted: bool)
      requires Indexed() && count == |Contents()| + overcount && (mode == Hash ==> count < THRESHOLD)
      requires pool.Valid() && pool.size == POOL_SIZE && bloom.Valid() && bloom.bits <= MAX_BITS
      requires bloom.bitmap as object != buckets as object && BloomHolds(bloom.bitmap[..], bloom.bits, Contents()[key := value])
      modifies this, buckets
      ensures Valid() && Contents() == old(Contents())[key := value]
      ensures counted <==> !(old(mode) == Hash && key in old(Contents()))
      ensures count == old(count) + (if counted then 1 else 0)
      ensures old(mode) == Hash ==> (mode == RBTree <==> key !in old(Contents()) && old(count) + 1 == THRESHOLD)
      ensures old(mode) == RBTree ==> mode == RBTree
    {
      if mode == Hash {
        var pushed := PutHash(key, value);
        if !pushed {
          return false;
        }
        count := count + 1;
        if count >= THRESHOLD {
          Convert();
        }
      } else {
        PutTree(key, value);
      }
      counted := true;
    }

    /** The hash-mode update of kvs_put_raw: the key's chain overwritten in place or pushed onto. */
    method PutHash(key: Key, value: Value) returns (pushed: bool)
      requires Indexed() && mode == Hash
      modifies buckets
      ensures Indexed() && Contents() == old(Contents())[key := value]
      ensures pushed <==> key !in old(Contents())
    {
      var b := BucketOf(key);
      ghost var L := buckets[..];
      var c2;
      c2, pushed := ChainPut(buckets[b], key, value);
      assert ChainPlaced(L[b], b);
      assert ChainPlaced(c2, b) by {
        if !pushed {
          SameKeysPlaced(L[b], c2, b);
        }
      }
      TableLookup(L, key);
      TableSet(L, key, value, c2);
      AllOneLiveSet(L, b, c2);
      buckets[b] := c2;
      assert buckets[..] == L[b := c2];
    }

    /** The tree-mode update of kvs_put_raw: rbtree_insert, and the put counted whatever the key held. */
    method PutTree(key: Key, value: Value)
      requires Indexed() && mode == RBTree
      modifies this
      ensures Indexed() && mode == RBTree && Contents() == old(Contents())[key := value]
      ensures count == old(count) + 1 && overcount == old(overcount) + (if key in old(Contents()) then 1 else 0)
    {
      ghost var M := Contents();
      assert M == LiveMap(Inorder(tree));
      ghost var L := buckets[..];
      tree := TreePut(tree, key, value);
      count := count + 1;
      overcount := overcount + (if key in M then 1 else 0);
      assert buckets[..] == L;
      assert Contents() == LiveMap(Inorder(tree));
    }

    /** The hash-mode part of kvs_delete: the live match in the key's chain flagged deleted. */
    method DeleteHash(k: Key) returns (found: bool)
      requires Indexed() && mode == Hash
      modifies buckets
      ensures Indexed() && Contents() == old(Contents()) - {k}
      ensures found <==> k in old(Contents())
    {
      var b := BucketOf(k);
      ghost var L := buckets[..];
      var c2;
      c2, found := ChainDelete(buckets[b], k);
      assert ChainPlaced(L[b], b);
      SameKeysPlaced(L[b], c2, b);
      TableLookup(L, k);
      TableRemove(L, k, c2);
      AllOneLiveSet(L, b, c2);
      buckets[b] := c2;
      assert buckets[..] == L[b := c2];
    }

    /** The tree-mode part of kvs_delete: rbtree_search, and the live entry found flagged deleted. */
    method DeleteTree(k: Key) returns (found: bool)
      requires Indexed() && mode == RBTree
      modifies this
      ensures Indexed() && mode == RBTree && Contents() == old(Contents()) - {k}
      ensures found <==> k in old(Contents())
      ensures count == old(count) && overcount == old(overcount)
    {
      ghost var M := Contents();
      assert M == LiveMap(Inorder(tree));
      ghost var L := buckets[..];
      tree, found := TreeDelete(tree, k);
      assert buckets[..] == L;
      assert Contents() == LiveMap(Inorder(tree));
    }

    /** kvs_put: both arguments are C strings. */
    method Put(key: seq<byte>, value: seq<byte>) returns (r: int)
      requires Valid()
      modifies this, buckets, pool, bloom, bloom.bitmap
      ensures Valid()
      ensures r == Status.OK || r == Status.NOMEM
      ensures var a := AllocThree(old(pool.pos), POOL_SIZE, ENTRY_SIZE, |CStr(key)| + 1, |CStr(value)| + 1);
        (r == Status.OK <==> a.0) && pool.pos == a.1
      ensures r == Status.OK ==> Contents() == old(Contents())[CStr(key) := CStr(value)]
      ensures r == Status.OK ==>
        count == old(count) + (if old(mode) == Hash && CStr(key) in old(Contents()) then 0 else 1)
      ensures r == Status.OK && old(mode) == Hash ==>
        (mode == RBTree <==> CStr(key) !in old(Contents()) && old(count) + 1 == THRESHOLD)
      ensures old(mode) == RBTree ==> mode == RBTree
      ensures r == Status.OK ==>
        PutFilter(old(bloom.bitmap[..]), old(bloom.bits), old(bloom.setBits), CStr(key),
                  count == old(count) + 1 && count % EXPAND_EVERY == 0, LiveKeys(Walk()),
                  bloom.bitmap[..], bloom.bits, bloom.setBits)
      ensures r == Status.NOMEM ==>
        mode == old(mode) && count == old(count) && tree == old(tree) && buckets[..] == old(buckets[..]) &&
        bloom.bitmap == old(bloom.bitmap) && bloom.bitmap[..] == old(bloom.bitmap[..]) &&
        bloom.bits == old(bloom.bits) && bloom.setBits == old(bloom.setBits)
      ensures bloom.bitmap == old(bloom.bitmap) || fresh(bloom.bitmap)
    {
      var k, v := CStr(key), CStr(value);
      r := PutRaw(k, v);
    }

    /** kvs_convert_to_rbtree: the live entries move into the tree, every chain is cleared, and the mode is RBTREE for good. */
    method Convert()
      requires Shaped() && mode == Hash
      modifies this, buckets
      ensures Valid() && mode == RBTree && Contents() == old(Contents()) && count == old(count)
    {
      ghost var M := Contents();
      tree := BuildTree(buckets[..]);
      ClearBuckets(buckets);
      mode := RBTree;
      EmptiesShaped(buckets[..]);
      assert Contents() == M;
    }

    /** kvs_compact: convert when still in hash mode, otherwise nothing. */
    method Compact()
      requires Valid()
      modifies this, buckets
      ensures Valid() && mode == RBTree && Contents() == old(Contents()) && count == old(count)
      ensures old(mode) == RBTree ==> tree == old(tree)
    {
      if mode == Hash {
        Convert();
      }
    }

    /**
     * bloom_check_expand: once the filter is at least half full and below its
     * cap, bloom_expand gives it a zeroed bitmap four times larger (at most
     * the cap) and re-adds every live key of the active index.
     */
    method CheckExpand()
      requires Valid()
      modifies bloom
      ensures Valid()
      ensures old(bloom.ShouldExpand()) ==>
        bloom.bits == GrownBits(old(bloom.bits)) &&
        bloom.bitmap[..] == AddKeys(Zeros(bloom.bits / 8), bloom.bits, LiveKeys(Walk())) &&
        bloom.setBits == PopCount(bloom.bitmap[..])
      ensures !old(bloom.ShouldExpand()) ==>
        bloom.bitmap == old(bloom.bitmap) && bloom.bits == old(bloom.bits) && bloom.setBits == old(bloom.setBits)
      ensures bloom.bitmap == old(bloom.bitmap) || fresh(bloom.bitmap)
    {
      if bloom.ShouldExpand() {
        var grew := bloom.Grow();
        ghost var m0 := bloom.bitmap[..];
        PopCountZeros(bloom.bits / 8);
        if mode == Hash {
          BPlusTreeKvs.Rebuild(bloom, buckets[..]);
        } else {
          AddTreeKeys(bloom, tree);
        }
        RebuiltHolds(m0, bloom.bits, Walk());
      }
    }

    /**
     * kvs_get_raw: NULL (None) when the filter rules the key out; otherwise
     * the first live match of the key's chain, or rbtree_search and the
     * tombstone test in tree mode.
     */
    method GetRaw(key: Key) returns (r: Option<Value>)
      requires Valid()
      ensures r == if key in Contents() then Some(Contents()[key]) else None
    {
      if !bloom.Maybe(key) {
        return None;
      }
      if mode == Hash {
        TableLookup(buckets[..], key);
        r := ChainGet(buckets[BucketOf(key)], key);
      } else {
        r := TreeGet(tree, key);
      }
    }

    /** kvs_get: the key is a C string. */
    method Get(key: seq<byte>) returns (r: Option<Value>)
      requires Valid()
      ensures r == if CStr(key) in Contents() then Some(Contents()[CStr(key)]) else None
    {
      r := GetRaw(CStr(key));
    }

    /** kvs_exists: the same lookup as kvs_get on a C-string key, answering yes or no. */
    method Exists(key: seq<byte>) returns (b: bool)
      requires Valid()
      ensures b <==> CStr(key) in Contents()
    {
      var k := CStr(key);
      if !bloom.Maybe(k) {
        return false;
      }
      var r;
      if mode == Hash {
        TableLookup(buckets[..], k);
        r := ChainGet(buckets[BucketOf(k)], k);
      } else {
        r := TreeGet(tree, k);
      }
      b := r.Some?;
    }

    /**
     * kvs_delete: NOTFOUND when the filter rules the key out or no live entry
     * has it; otherwise the entry is flagged deleted and count drops by one.
     */
    method Delete(key: seq<byte>) returns (r: int)
      requires Valid()
      modifies this, buckets
      ensures Valid() && mode == old(mode)
      ensures r == Status.OK || r == Status.NOTFOUND
      ensures r == Status.OK <==> CStr(key) in old(Contents())
      ensures Contents() == old(Contents()) - {CStr(key)}
      ensures count == old(count) - (if r == Status.OK then 1 else 0)
    {
      var k := CStr(key);
      if !bloom.Maybe(k) {
        Seqs.RemoveAbsent(Contents(), k);
        return Status.NOTFOUND;
      }
      var found := Unbind(k);
      r := if found then Status.OK else Status.NOTFOUND;
    }

    /** The part of kvs_delete past the filter: the live entry flagged deleted in the active index and count dropped. */
    method Unbind(k: Key) returns (found: bool)
      requires Valid()
      modifies this, buckets
      ensures Valid() && mode == old(mode)
      ensures found <==> k in old(Contents())
      ensures Contents() == old(Contents()) - {k}
      ensures count == old(count) - (if found then 1 else 0)
    {
      ghost var M := Contents();
      ghost var bm := bloom.bitmap[..];
      if mode == Hash {
        found := DeleteHash(k);
      } else {
        found := DeleteTree(k);
      }
      assert bloom.bitmap[..] == bm && Contents() == M - {k};
      BloomRemove(bm, bloom.bits, M, k);
      if found {
        MapRemoveCard(M, k);
        count := count - 1;
      }
    }

    /**
     * kvs_foreach: the live pairs, bucket by bucket in hash mode and in key
     * order in tree mode; the number returned is the number visited in hash
     * mode but db->count in tree mode.
     */
    method Foreach() returns (visited: seq<(Key, Value)>, n: nat)
      requires Valid()
      ensures visited == LivePairs(Walk()) && PairsMap(visited) == Contents() && |visited| == |Contents()|
      ensures n == |visited| + overcount && n == (if mode == Hash then |visited| else count)
      ensures mode == RBTree ==> forall i, j :: 0 <= i < j < |visited| ==> KeyLess(visited[i].0, visited[j].0)
    {
      if mode == Hash {
        visited, n := WalkTable(buckets[..]);
        FlatDistinct(buckets[..]);
        LiveCard(Flat(buckets[..]));
      } else {
        visited := InorderPairs(tree);
        n := count;
        LiveMapCard(Inorder(tree));
        LivePairsSorted(Inorder(tree));
      }
      PairsMapLive(Walk());
    }

    /** kvs_stats, without the floating-point fill rate. */
    method GetStats() returns (s: Stats)
      requires Valid()
      ensures s.count == |Contents()| + overcount && s.mode == mode
      ensures s.memoryUsed == pool.pos && s.memoryUsed <= POOL_SIZE
      ensures s.bloomBits == bloom.bits && s.bloomSetBits == bloom.setBits
      ensures s.bloomSetBits <= PopCount(bloom.bitmap[..])
    {
      s := Stats(count, pool.pos, bloom.bits, bloom.setBits, mode);
    }
  }
}
