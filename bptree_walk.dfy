/**
 * The descents and leaf-by-leaf walks of b+tree/kvs.c: find_leaf, the
 * first_leaf and last-leaf descents, and the facts the walks over the leaf
 * chain (bloom_rebuild, kvs_save, kvs_foreach) rest on.
 */
module BPlusTreeWalk {
  import opened Keys
  import opened Wrappers
  import opened Arena
  import opened BPlusTree
  import opened BPlusTreeProofs
  import opened BPlusTreeInsert
  import opened BPlusTreeLeaves
  import opened Bloom
  import Seqs

  // ===== descents =====

  /**
   * find_leaf: from the root, follow the child internal_find_pos picks until a
   * leaf.  The leaf is returned with its position li in the leaf chain.
   */
  method FindLeaf(root: Node, h: nat, k: Key) returns (es: seq<Entry>, li: nat)
    requires TreeInv(root, h)
    ensures li == LeafIndex(root, k) && li < |Leaves(root)|
    ensures es == Leaves(root)[li]
  {
    var n := root;
    ghost var lo: Option<Key> := None;
    ghost var hi: Option<Key> := None;
    ghost var P: seq<seq<Entry>> := [];
    ghost var S: seq<seq<Entry>> := [];
    li := 0;
    while n.Internal?
      invariant Shaped(n) && Ordered(n, lo, hi)
      invariant Leaves(root) == P + Leaves(n) + S
      invariant li == |P| && li + LeafIndex(n, k) == LeafIndex(root, k)
      decreases n
    {
      var pos := InternalFindPos(n.keys, k);
      var cs := n.children;
      DescendStep(root, P, S, n, lo, hi, k);
      li := li + |LeavesOf(cs[..pos])|;
      P, S := P + LeavesOf(cs[..pos]), LeavesOf(cs[pos + 1..]) + S;
      lo, hi := ChildLo(n.keys, lo, pos), ChildHi(n.keys, hi, pos);
      n := cs[pos];
    }
    es := n.entries;
  }

  /** One step of find_leaf keeps the descent's invariant: the leaves left and right of the child just entered join P and S. */
  lemma DescendStep(root: Node, P: seq<seq<Entry>>, S: seq<seq<Entry>>, n: Node, lo: Option<Key>, hi: Option<Key>, k: Key)
    requires Shaped(root) && n.Internal? && Shaped(n) && Ordered(n, lo, hi)
    requires Leaves(root) == P + Leaves(n) + S && |P| + LeafIndex(n, k) == LeafIndex(root, k)
    ensures var pos := UpperBound(n.keys, k);
      var cs := n.children;
      pos < |cs| && Shaped(cs[pos]) && Ordered(cs[pos], ChildLo(n.keys, lo, pos), ChildHi(n.keys, hi, pos)) &&
      Leaves(root) == (P + LeavesOf(cs[..pos])) + Leaves(cs[pos]) + (LeavesOf(cs[pos + 1..]) + S) &&
      |P + LeavesOf(cs[..pos])| + LeafIndex(cs[pos], k) == LeafIndex(root, k)
  {
    var pos := UpperBound(n.keys, k);
    var cs := n.children;
    ChildStep(n, lo, hi, k);
    Seqs.Regroup(P, LeavesOf(cs[..pos]), Leaves(cs[pos]), LeavesOf(cs[pos + 1..]), S);
  }

  /** The child find_leaf enters from n: ordered within its separators, with the leaves of n split around its own. */
  lemma ChildStep(n: Node, lo: Option<Key>, hi: Option<Key>, k: Key)
    requires n.Internal? && Shaped(n) && Ordered(n, lo, hi)
    ensures var pos := UpperBound(n.keys, k);
      var cs := n.children;
      pos < |cs| && Shaped(cs[pos]) && Ordered(cs[pos], ChildLo(n.keys, lo, pos), ChildHi(n.keys, hi, pos)) &&
      Leaves(n) == LeavesOf(cs[..pos]) + Leaves(cs[pos]) + LeavesOf(cs[pos + 1..]) &&
      LeafIndex(n, k) == |LeavesOf(cs[..pos])| + LeafIndex(cs[pos], k)
  {
    LeavesOfSplitAt(n.children, UpperBound(n.keys, k));
  }

  /** The loop kvs_put_raw runs to refresh db->first_leaf: always the first child. */
  method FirstLeaf(root: Node) returns (es: seq<Entry>)
    requires Shaped(root)
    ensures |Leaves(root)| >= 1 && es == Leaves(root)[0]
  {
    var n := root;
    while n.Internal?
      invariant Shaped(n) && Leftmost(n) == Leftmost(root)
      decreases n
    {
      n := n.children[0];
    }
    es := n.entries;
    LeftmostRightmost(root);
  }

  /** The descent of kvs_cursor_last: always the last child, children[num_keys]. */
  method LastLeaf(root: Node) returns (es: seq<Entry>)
    requires Shaped(root)
    ensures |Leaves(root)| >= 1 && es == Leaves(root)[|Leaves(root)| - 1]
  {
    var n := root;
    while n.Internal?
      invariant Shaped(n) && Rightmost(n) == Rightmost(root)
      decreases n
    {
      n := n.children[|n.keys|];
    }
    es := n.entries;
    LeftmostRightmost(root);
  }

  // ===== walking the chain leaf by leaf =====

  /** One more entry of leaf li walked. */
  lemma WalkStep(L: seq<seq<Entry>>, li: nat, i: nat)
    requires li < |L| && i < |L[li]|
    ensures Flat(L[..li]) + L[li][..i + 1] == (Flat(L[..li]) + L[li][..i]) + [L[li][i]]
  {
    assert L[li][..i + 1] == L[li][..i] + [L[li][i]];
  }

  /** Leaf li walked to its end: the walk has covered the first li + 1 leaves. */
  lemma WalkLeafDone(L: seq<seq<Entry>>, li: nat)
    requires li < |L|
    ensures Flat(L[..li]) + L[li][..|L[li]|] == Flat(L[..li + 1])
  {
    assert L[..li + 1][..li] == L[..li];
    assert L[li][..|L[li]|] == L[li];
  }

  /** The walk that starts with nothing walked. */
  lemma WalkStart(L: seq<seq<Entry>>)
    requires |L| > 0
    ensures Flat(L[..0]) + L[0][..0] == []
  {
    assert L[..0] == [];
  }

  /** Every leaf walked: the whole chain. */
  lemma WalkDone(L: seq<seq<Entry>>)
    ensures Flat(L[..|L|]) == Flat(L)
  {
    assert L[..|L|] == L;
  }

  // ===== what a walk collects =====

  /** The keys of the live entries, in chain order: what bloom_rebuild passes to bloom_add. */
  function LiveKeys(F: seq<Entry>): seq<Key>
    decreases |F|
  {
    if |F| == 0 then []
    else
      var ks := LiveKeys(F[..|F| - 1]);
      if F[|F| - 1].deleted then ks else ks + [F[|F| - 1].key]
  }

  lemma LiveKeysSnoc(G: seq<Entry>, e: Entry)
    ensures LiveKeys(G + [e]) == if e.deleted then LiveKeys(G) else LiveKeys(G) + [e.key]
  {
    assert (G + [e])[..|G|] == G;
  }

  lemma {:induction false} LiveKeysAppend(a: seq<Entry>, b: seq<Entry>)
    ensures LiveKeys(a + b) == LiveKeys(a) + LiveKeys(b)
    decreases |b|
  {
    if |b| == 0 {
      assert a + b == a;
    } else {
      Seqs.WithoutLast(a, b);
      LiveKeysAppend(a, b[..|b| - 1]);
    }
  }

  lemma LivePairsSnoc(G: seq<Entry>, e: Entry)
    ensures LivePairs(G + [e]) == if e.deleted then LivePairs(G) else LivePairs(G) + [(e.key, e.value)]
  {
    assert (G + [e])[..|G|] == G;
  }

  /** Every live key is among the keys a rebuild re-adds. */
  lemma {:induction false} LiveKeysHas(F: seq<Entry>)
    ensures forall k :: k in LiveMap(F) ==> k in LiveKeys(F)
    decreases |F|
  {
    if |F| > 0 {
      LiveKeysHas(F[..|F| - 1]);
    }
  }

  /** The map built by putting the pairs of P in order, a later pair winning: what replaying a save file builds. */
  function PairsMap(P: seq<(Key, Value)>): map<Key, Value>
    decreases |P|
  {
    if |P| == 0 then map[] else PairsMap(P[..|P| - 1])[P[|P| - 1].0 := P[|P| - 1].1]
  }

  /** Putting the live pairs back in chain order rebuilds the live map. */
  lemma {:induction false} PairsMapLive(F: seq<Entry>)
    ensures PairsMap(LivePairs(F)) == LiveMap(F)
    decreases |F|
  {
    if |F| > 0 {
      var G, e := F[..|F| - 1], F[|F| - 1];
      PairsMapLive(G);
      if !e.deleted {
        var P := LivePairs(G) + [(e.key, e.value)];
        assert P[..|P| - 1] == LivePairs(G);
      }
    }
  }

  /** Every key of P is below k. */
  ghost predicate PairsBelow(P: seq<(Key, Value)>, k: Key)
  {
    forall i :: 0 <= i < |P| ==> KeyLess(P[i].0, k)
  }

  lemma {:induction false} LivePairsBelow(F: seq<Entry>, k: Key)
    requires AllLess(F, k)
    ensures PairsBelow(LivePairs(F), k)
    decreases |F|
  {
    if |F| > 0 {
      LivePairsBelow(F[..|F| - 1], k);
    }
  }

  /** kvs_foreach reports the live pairs in strictly ascending key order. */
  lemma {:induction false} LivePairsSorted(F: seq<Entry>)
    requires EntriesSorted(F)
    ensures forall i, j :: 0 <= i < j < |LivePairs(F)| ==> KeyLess(LivePairs(F)[i].0, LivePairs(F)[j].0)
    decreases |F|
  {
    if |F| > 0 {
      var G, e := F[..|F| - 1], F[|F| - 1];
      assert EntriesSorted(G) by {
        forall i, j | 0 <= i < j < |G| ensures KeyLess(G[i].key, G[j].key) {
          assert G[i] == F[i] && G[j] == F[j];
        }
      }
      LivePairsSorted(G);
      if !e.deleted {
        assert AllLess(G, e.key) by {
          forall i | 0 <= i < |G| ensures KeyLess(G[i].key, e.key) {
            assert G[i] == F[i];
          }
        }
        LivePairsBelow(G, e.key);
      }
    }
  }

  // ===== sizes =====

  /** Every key and value in the chain was copied into the pool, so each is shorter than the pool. */
  ghost predicate Small(F: seq<Entry>)
  {
    forall i :: 0 <= i < |F| ==> |F[i].key| < POOL_SIZE && |F[i].value| < POOL_SIZE
  }

  lemma InsertSortedSmall(F: seq<Entry>, e: Entry)
    requires Small(F) && |e.key| < POOL_SIZE && |e.value| < POOL_SIZE
    ensures Small(InsertSorted(F, e))
  {
    InsertSortedMembers(F, e);
  }

  lemma MarkKeySmall(F: seq<Entry>, k: Key)
    requires Small(F)
    ensures Small(MarkKey(F, k))
  {
  }

  lemma {:induction false} InsertSortedLength(F: seq<Entry>, e: Entry)
    ensures |F| <= |InsertSorted(F, e)| <= |F| + 1
    decreases |F|
  {
    if |F| > 0 && KeyLess(F[0].key, e.key) {
      InsertSortedLength(F[1..], e);
    }
  }

  /** The live pairs of a chain of small entries are small. */
  lemma {:induction false} LivePairsSmall(F: seq<Entry>)
    requires Small(F)
    ensures forall i :: 0 <= i < |LivePairs(F)| ==> |LivePairs(F)[i].0| < POOL_SIZE && |LivePairs(F)[i].1| < POOL_SIZE
    decreases |F|
  {
    if |F| > 0 {
      LivePairsSmall(F[..|F| - 1]);
    }
  }

  // ===== the filter rebuilt from a walk =====

  /** A bitmap rebuilt from the live keys lets every live key through. */
  lemma RebuiltHolds(m: seq<bv8>, bits: nat, F: seq<Entry>)
    requires WellSized(m, bits)
    ensures BloomHolds(AddKeys(m, bits, LiveKeys(F)), bits, LiveMap(F))
  {
    var ks := LiveKeys(F);
    AddKeysMaybe(m, bits, ks);
    LiveKeysHas(F);
    forall k | k in LiveMap(F) ensures MaybeIn(AddKeys(m, bits, ks), bits, k) {
      var j :| 0 <= j < |ks| && ks[j] == k;
    }
  }
}
