/**
 * The chained hash table that hash_rbtree/kvs.c and kvs_hybrid.c start out
 * in: 8192 chains (KVS_DEFAULT_HASH_BUCKETS, HASH_BUCKETS), the chain of a key
 * chosen by fnv1a(key) % 8192, new entries pushed at the head, and the switch
 * to a red-black tree once 65536 (8 * 8192) entries are counted.
 *
 * A table is the sequence of its chains, each chain head first.  The map a
 * table stands for is the union of one map per chain; since every key sits in
 * the chain it hashes to, no two chains' maps share a key and the lookup of
 * a key needs only its own chain.
 */
module HashTable {
  import opened Keys
  import opened BPlusTree
  import Hashes

  const BUCKETS: nat := 8192

  /** KVS_DEFAULT_THRESHOLD, THRESHOLD: the count at which the table becomes a tree. */
  const THRESHOLD: nat := 65536

  /** fnv1a(key) % bucket_count */
  function BucketOf(k: Key): (r: nat)
    ensures r < BUCKETS
  {
    Hashes.Fnv1a(k) as int % BUCKETS
  }

  /** Every entry sits in the chain its key hashes to. */
  ghost predicate Placed(L: seq<seq<Entry>>)
  {
    forall i, j :: 0 <= i < |L| && 0 <= j < |L[i]| ==> BucketOf(L[i][j].key) == i
  }

  /** Every key of the i-th map hashes to i. */
  ghost predicate MapsPlaced(Ms: seq<map<Key, Value>>)
  {
    forall i, k :: 0 <= i < |Ms| && k in Ms[i] ==> BucketOf(k) == i
  }

  /** The map of a whole table: the union of the maps of its chains. */
  function Union(Ms: seq<map<Key, Value>>): map<Key, Value>
    decreases |Ms|
  {
    if |Ms| == 0 then map[] else Union(Ms[..|Ms| - 1]) + Ms[|Ms| - 1]
  }

  lemma MapsPlacedPrefix(Ms: seq<map<Key, Value>>, n: nat)
    requires MapsPlaced(Ms) && n <= |Ms|
    ensures MapsPlaced(Ms[..n])
  {
    forall i, k | 0 <= i < n && k in Ms[..n][i] ensures BucketOf(k) == i {
      assert Ms[..n][i] == Ms[i];
    }
  }

  /** A key is bound in the table exactly when it is bound in its own chain's map, to the same value. */
  lemma {:induction false} UnionLookup(Ms: seq<map<Key, Value>>, k: Key)
    requires MapsPlaced(Ms)
    ensures k in Union(Ms) <==> BucketOf(k) < |Ms| && k in Ms[BucketOf(k)]
    ensures k in Union(Ms) ==> Union(Ms)[k] == Ms[BucketOf(k)][k]
    decreases |Ms|
  {
    if |Ms| > 0 {
      var n := |Ms| - 1;
      MapsPlacedPrefix(Ms, n);
      UnionLookup(Ms[..n], k);
    }
  }

  /** Binding k in its own chain's map binds it in the table and changes nothing else. */
  lemma UnionUpdate(Ms: seq<map<Key, Value>>, k: Key, v: Value)
    requires MapsPlaced(Ms) && BucketOf(k) < |Ms|
    ensures var b := BucketOf(k);
      MapsPlaced(Ms[b := Ms[b][k := v]]) && Union(Ms[b := Ms[b][k := v]]) == Union(Ms)[k := v]
  {
    var b := BucketOf(k);
    var Ns := Ms[b := Ms[b][k := v]];
    forall j | j in Union(Ns) || j in Union(Ms)[k := v]
      ensures j in Union(Ns) && j in Union(Ms)[k := v] && Union(Ns)[j] == Union(Ms)[k := v][j]
    {
      UnionLookup(Ns, j);
      UnionLookup(Ms, j);
    }
  }

  /** Unbinding k in its own chain's map unbinds it in the table and changes nothing else. */
  lemma UnionRemove(Ms: seq<map<Key, Value>>, k: Key)
    requires MapsPlaced(Ms) && BucketOf(k) < |Ms|
    ensures var b := BucketOf(k);
      MapsPlaced(Ms[b := Ms[b] - {k}]) && Union(Ms[b := Ms[b] - {k}]) == Union(Ms) - {k}
  {
    var b := BucketOf(k);
    var Ns := Ms[b := Ms[b] - {k}];
    forall j | j in Union(Ns) || j in Union(Ms) - {k}
      ensures j in Union(Ns) && j in Union(Ms) - {k} && Union(Ns)[j] == (Union(Ms) - {k})[j]
    {
      UnionLookup(Ns, j);
      UnionLookup(Ms, j);
    }
  }

  /** A table of empty chains stands for the empty map. */
  lemma {:induction false} UnionEmpty(Ms: seq<map<Key, Value>>)
    requires forall i :: 0 <= i < |Ms| ==> Ms[i] == map[]
    ensures Union(Ms) == map[]
    decreases |Ms|
  {
    if |Ms| > 0 {
      UnionEmpty(Ms[..|Ms| - 1]);
    }
  }
}
