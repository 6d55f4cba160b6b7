/**
 * The leaf chain one leaf at a time: what db->first_leaf, the next/prev links
 * and find_leaf (b+tree/kvs.c:182-190) see.  A leaf is named by its position
 * in Leaves(root); an entry by its offset in the flattened chain.
 */
module BPlusTreeLeaves {
  import opened Keys
  import opened Wrappers
  import opened BPlusTree
  import opened BPlusTreeProofs
  import opened BPlusTreeInsert
  import Seqs

  /** The offset in the flattened chain of the first entry of leaf li. */
  function Off(L: seq<seq<Entry>>, li: nat): nat
    requires li <= |L|
  {
    |Flat(L[..li])|
  }

  lemma {:induction false} FlatAppend(a: seq<seq<Entry>>, b: seq<seq<Entry>>)
    ensures Flat(a + b) == Flat(a) + Flat(b)
    decreases |b|
  {
    if |b| == 0 {
      Seqs.AppendNothing(a);
    } else {
      Seqs.WithoutLast(a, b);
      FlatAppend(a, b[..|b| - 1]);
    }
  }

  lemma FlatOne(l: seq<Entry>)
    ensures Flat([l]) == l
  {
    Seqs.TakeOne(l);
  }

  lemma {:induction false} LeavesOfAppend(a: seq<Node>, b: seq<Node>)
    ensures LeavesOf(a + b) == LeavesOf(a) + LeavesOf(b)
    decreases |b|
  {
    if |b| == 0 {
      Seqs.AppendNothing(a);
    } else {
      Seqs.WithoutLast(a, b);
      LeavesOfAppend(a, b[..|b| - 1]);
    }
  }

  lemma LeavesOfSplitAt(cs: seq<Node>, pos: nat)
    requires pos < |cs|
    ensures LeavesOf(cs) == LeavesOf(cs[..pos]) + Leaves(cs[pos]) + LeavesOf(cs[pos + 1..])
  {
    Seqs.Split3(cs, pos);
    LeavesOfAppend(cs[..pos], cs[pos..]);
    LeavesOfAppend([cs[pos]], cs[pos + 1..]);
    LeavesOfOne(cs[pos]);
  }

  lemma LeavesOfOne(c: Node)
    ensures LeavesOf([c]) == Leaves(c)
  {
    Seqs.TakeOne(c);
  }

  /** Walking the leaves one at a time meets the entries of the chain in chain order. */
  lemma {:induction false} FlatLeaves(n: Node)
    ensures Flat(Leaves(n)) == Chain(n)
    decreases n
  {
    match n
    case Leaf(es) => FlatOne(es);
    case Internal(_, cs) => FlatLeavesOf(cs);
  }

  lemma {:induction false} FlatLeavesOf(cs: seq<Node>)
    ensures Flat(LeavesOf(cs)) == ChainOf(cs)
    decreases cs
  {
    if |cs| > 0 {
      var last := |cs| - 1;
      FlatLeavesOf(cs[..last]);
      FlatLeaves(cs[last]);
      FlatAppend(LeavesOf(cs[..last]), Leaves(cs[last]));
    }
  }

  /** A well-shaped subtree has at least one leaf; a non-root one has at least MIN_KEYS entries in each. */
  lemma {:induction false} LeavesFull(n: Node)
    requires Shaped(n) && Bounded(n, false)
    ensures |Leaves(n)| >= 1
    ensures forall i :: 0 <= i < |Leaves(n)| ==> |Leaves(n)[i]| >= MIN_KEYS
    decreases n
  {
    match n
    case Leaf(_) =>
    case Internal(_, cs) =>
      LeavesOfFull(cs);
  }

  lemma {:induction false} LeavesOfFull(cs: seq<Node>)
    requires forall i :: 0 <= i < |cs| ==> Shaped(cs[i]) && Bounded(cs[i], false)
    ensures |LeavesOf(cs)| >= |cs|
    ensures forall i :: 0 <= i < |LeavesOf(cs)| ==> |LeavesOf(cs)[i]| >= MIN_KEYS
    decreases cs
  {
    if |cs| > 0 {
      var last := |cs| - 1;
      LeavesOfFull(cs[..last]);
      LeavesFull(cs[last]);
      var a, b := LeavesOf(cs[..last]), Leaves(cs[last]);
      assert LeavesOf(cs) == a + b;
      forall i | 0 <= i < |a + b| ensures |(a + b)[i]| >= MIN_KEYS {
        if i < |a| { assert (a + b)[i] == a[i]; } else { assert (a + b)[i] == b[i - |a|]; }
      }
    }
  }

  /**
   * The leaves of a tree at rest: there is at least one, and either the tree is
   * a single (possibly empty) root leaf or every leaf holds at least one entry.
   */
  lemma LeafSizes(root: Node, h: nat)
    requires TreeInv(root, h)
    ensures |Leaves(root)| >= 1
    ensures |Leaves(root)| == 1 || forall i :: 0 <= i < |Leaves(root)| ==> |Leaves(root)[i]| > 0
    ensures |Flat(Leaves(root))| == 0 ==> |Leaves(root)| == 1
  {
    if root.Internal? {
      LeavesOfFull(root.children);
      FlatIndex(Leaves(root), 0, 0);
    }
  }

  lemma {:induction false} FlatLength(L: seq<seq<Entry>>, li: nat)
    requires li < |L|
    ensures Off(L, li + 1) == Off(L, li) + |L[li]|
  {
    assert L[..li + 1][..li] == L[..li];
  }

  lemma {:induction false} OffMono(L: seq<seq<Entry>>, a: nat, b: nat)
    requires a <= b <= |L|
    ensures Off(L, a) <= Off(L, b)
    decreases b - a
  {
    if a < b {
      OffMono(L, a, b - 1);
      FlatLength(L, b - 1);
    }
  }

  /** Entry idx of leaf li sits at offset Off(L, li) + idx of the flattened chain. */
  lemma {:induction false} FlatIndex(L: seq<seq<Entry>>, li: nat, idx: nat)
    requires li < |L| && idx < |L[li]|
    ensures Off(L, li) + idx < |Flat(L)|
    ensures Flat(L)[Off(L, li) + idx] == L[li][idx]
  {
    FlatSplitAt(L, li);
  }

  lemma FlatSplitAt(L: seq<seq<Entry>>, li: nat)
    requires li < |L|
    ensures Flat(L) == Flat(L[..li]) + L[li] + Flat(L[li + 1..])
  {
    Seqs.Split3(L, li);
    FlatAppend(L[..li], L[li..]);
    FlatAppend([L[li]], L[li + 1..]);
    FlatOne(L[li]);
  }

  lemma AllLessAppend(a: seq<Entry>, b: seq<Entry>, k: Key)
    requires AllLess(a, k) && AllLess(b, k)
    ensures AllLess(a + b, k)
  {
    assert forall i :: 0 <= i < |a + b| ==> (a + b)[i] == if i < |a| then a[i] else b[i - |a|];
  }

  lemma AllGreaterAppend(a: seq<Entry>, b: seq<Entry>, k: Key)
    requires AllGreater(a, k) && AllGreater(b, k)
    ensures AllGreater(a + b, k)
  {
    assert forall i :: 0 <= i < |a + b| ==> (a + b)[i] == if i < |a| then a[i] else b[i - |a|];
  }

  /** Leaf li of L separates k: every entry in the leaves before it is below k, every entry after it above. */
  ghost predicate Separates(L: seq<seq<Entry>>, li: nat, k: Key)
  {
    li < |L| && AllLess(Flat(L[..li]), k) && AllGreater(Flat(L[li + 1..]), k)
  }

  /** find_leaf reaches the leaf of the chain that separates k. */
  lemma {:induction false} LeafIndexSplit(n: Node, k: Key, lo: Option<Key>, hi: Option<Key>)
    requires Shaped(n) && Ordered(n, lo, hi)
    ensures Separates(Leaves(n), LeafIndex(n, k), k)
    decreases n
  {
    match n
    case Leaf(_) =>
      assert Leaves(n)[..0] == [] && Leaves(n)[1..] == [];
    case Internal(ks, cs) =>
      var pos := UpperBound(ks, k);
      LeftChildrenLess(ks, cs, lo, hi, k);
      RightChildrenGreater(ks, cs, lo, hi, k);
      LeafIndexSplit(cs[pos], k, ChildLo(ks, lo, pos), ChildHi(ks, hi, pos));
      LeafIndexStep(ks, cs, k);
  }

  lemma LeafIndexStep(ks: seq<Key>, cs: seq<Node>, k: Key)
    requires Shaped(Internal(ks, cs)) && UpperBound(ks, k) < |cs|
    requires AllLess(ChainOf(cs[..UpperBound(ks, k)]), k) && AllGreater(ChainOf(cs[UpperBound(ks, k) + 1..]), k)
    requires Separates(Leaves(cs[UpperBound(ks, k)]), LeafIndex(cs[UpperBound(ks, k)], k), k)
    ensures Separates(Leaves(Internal(ks, cs)), LeafIndex(Internal(ks, cs), k), k)
  {
    var pos := UpperBound(ks, k);
    var P, C, S := LeavesOf(cs[..pos]), Leaves(cs[pos]), LeavesOf(cs[pos + 1..]);
    FlatLeavesOf(cs[..pos]);
    FlatLeavesOf(cs[pos + 1..]);
    LeavesOfSplitAt(cs, pos);
    assert Leaves(Internal(ks, cs)) == P + C + S;
    assert LeafIndex(Internal(ks, cs), k) == |P| + LeafIndex(cs[pos], k);
    LeafIndexParts(P, C, S, LeafIndex(cs[pos], k), k);
  }

  lemma LeafIndexParts(P: seq<seq<Entry>>, C: seq<seq<Entry>>, S: seq<seq<Entry>>, j: nat, k: Key)
    requires AllLess(Flat(P), k) && AllGreater(Flat(S), k) && Separates(C, j, k)
    ensures Separates(P + C + S, |P| + j, k)
  {
    Seqs.Around(P, C, S, j);
    FlatAppend(P, C[..j]);
    AllLessAppend(Flat(P), Flat(C[..j]), k);
    FlatAppend(C[j + 1..], S);
    AllGreaterAppend(Flat(C[j + 1..]), Flat(S), k);
  }

  lemma SortedSlice(F: seq<Entry>, a: nat, b: nat)
    requires EntriesSorted(F) && a <= b <= |F|
    ensures EntriesSorted(F[a..b])
  {
    var G := F[a..b];
    forall i, j | 0 <= i < j < |G| ensures KeyLess(G[i].key, G[j].key) {
      assert G[i] == F[a + i] && G[j] == F[a + j];
    }
  }

  /** A sorted chain split around a leaf: the leaf itself is sorted. */
  lemma LeafSorted(root: Node, h: nat, li: nat)
    requires TreeInv(root, h) && li < |Leaves(root)|
    ensures EntriesSorted(Leaves(root)[li])
  {
    var L := Leaves(root);
    ChainInBounds(root, None, None);
    FlatLeaves(root);
    FlatSplitAt(L, li);
    SortedSlice(Flat(L), |Flat(L[..li])|, |Flat(L[..li])| + |L[li]|);
    assert Flat(L)[|Flat(L[..li])|..|Flat(L[..li])| + |L[li]|] == L[li];
  }

  /** As LiveMapMiddle, with the value: a key absent from A and B has in A + C + B the binding it has in C. */
  lemma LiveMapMiddleValue(A: seq<Entry>, C: seq<Entry>, B: seq<Entry>, k: Key)
    requires forall i :: 0 <= i < |A| ==> A[i].key != k
    requires forall i :: 0 <= i < |B| ==> B[i].key != k
    ensures (k in LiveMap(A + C + B)) <==> (k in LiveMap(C))
    ensures k in LiveMap(C) ==> LiveMap(A + C + B)[k] == LiveMap(C)[k]
  {
    LiveMapAppend(A + C, B);
    LiveMapAppend(A, C);
    LiveMapAbsent(A, k);
    LiveMapAbsent(B, k);
  }

  /**
   * What kvs_get_raw, kvs_exists and kvs_delete test after find_leaf and
   * leaf_find_pos: the slot at the lower bound of the reached leaf holds k and
   * is not a tombstone exactly when k is live in the whole tree, and then it
   * holds k's value.
   */
  lemma LeafLookup(root: Node, h: nat, k: Key)
    requires TreeInv(root, h)
    ensures LeafIndex(root, k) < |Leaves(root)|
    ensures var es := Leaves(root)[LeafIndex(root, k)];
      var pos := LowerBound(es, k);
      (pos < |es| && es[pos].key == k && !es[pos].deleted <==> k in LiveMap(Chain(root))) &&
      (pos < |es| && es[pos].key == k && !es[pos].deleted ==> LiveMap(Chain(root))[k] == es[pos].value)
  {
    var L := Leaves(root);
    LeafIndexSplit(root, k, None, None);
    var li := LeafIndex(root, k);
    var es := L[li];
    FlatLeaves(root);
    FlatSplitAt(L, li);
    LessNotKey(Flat(L[..li]), k);
    GreaterNotKey(Flat(L[li + 1..]), k);
    LiveMapMiddleValue(Flat(L[..li]), es, Flat(L[li + 1..]), k);
    LeafSorted(root, h, li);
    SlotLookup(es, k);
  }

  /** In one sorted leaf, the lower-bound slot decides whether k is live and what it maps to. */
  lemma SlotLookup(es: seq<Entry>, k: Key)
    requires EntriesSorted(es)
    ensures var pos := LowerBound(es, k);
      (pos < |es| && es[pos].key == k && !es[pos].deleted <==> k in LiveMap(es)) &&
      (pos < |es| && es[pos].key == k && !es[pos].deleted ==> LiveMap(es)[k] == es[pos].value)
  {
    var pos := LowerBound(es, k);
    if pos < |es| && es[pos].key == k {
      if !es[pos].deleted {
        LiveMapAt(es, pos);
      } else {
        SortedKeyOnlyAt(es, pos);
        LiveMapAbsent(es, k);
      }
    } else {
      NoKeyAtLowerBound(es, k);
      LiveMapAbsent(es, k);
    }
  }

  /** The lower bound of k in the whole chain is the lower bound inside the leaf find_leaf reaches, offset by that leaf's position. */
  lemma SeekOffset(root: Node, h: nat, k: Key)
    requires TreeInv(root, h)
    ensures LeafIndex(root, k) < |Leaves(root)|
    ensures Off(Leaves(root), LeafIndex(root, k)) + LowerBound(Leaves(root)[LeafIndex(root, k)], k) ==
      LowerBound(Flat(Leaves(root)), k)
  {
    var L := Leaves(root);
    LeafIndexSplit(root, k, None, None);
    var li := LeafIndex(root, k);
    FlatSplitAt(L, li);
    LeafSorted(root, h, li);
    LowerBoundMiddle(Flat(L[..li]), L[li], Flat(L[li + 1..]), k);
  }

  lemma LowerBoundMiddle(A: seq<Entry>, C: seq<Entry>, B: seq<Entry>, k: Key)
    requires AllLess(A, k) && AllGreater(B, k) && EntriesSorted(C)
    ensures LowerBound(A + C + B, k) == |A| + LowerBound(C, k)
  {
    var F := A + C + B;
    var q := LowerBound(C, k);
    var p := |A| + q;
    forall i | 0 <= i < p ensures KeyLess(F[i].key, k) {
      if i < |A| { assert F[i] == A[i]; } else { assert F[i] == C[i - |A|]; }
    }
    forall i | p <= i < |F| ensures !KeyLess(F[i].key, k) {
      if i < |A| + |C| {
        assert F[i] == C[i - |A|];
        if i - |A| > q {
          KeyNotLess(C[q].key, k);
          KeyLeLessTrans(k, C[q].key, C[i - |A|].key);
          KeyTotal(k, C[i - |A|].key);
        }
      } else {
        assert F[i] == B[i - |A| - |C|];
        KeyTotal(k, F[i].key);
      }
    }
    LowerBoundUnique(F, k, p);
  }

  /** The descent of kvs_put_raw's first_leaf update and of kvs_cursor_last: always the first, or always the last, child. */
  function Leftmost(n: Node): seq<Entry>
    requires Shaped(n)
    decreases n
  {
    match n
    case Leaf(es) => es
    case Internal(_, cs) => Leftmost(cs[0])
  }

  function Rightmost(n: Node): seq<Entry>
    requires Shaped(n)
    decreases n
  {
    match n
    case Leaf(es) => es
    case Internal(ks, cs) => Rightmost(cs[|ks|])
  }

  /** db->first_leaf, found by descending the first children, is the first leaf of the chain; the last-child descent finds the last one. */
  lemma {:induction false} LeftmostRightmost(n: Node)
    requires Shaped(n)
    ensures |Leaves(n)| >= 1
    ensures Leftmost(n) == Leaves(n)[0]
    ensures Rightmost(n) == Leaves(n)[|Leaves(n)| - 1]
    decreases n
  {
    match n
    case Leaf(_) =>
    case Internal(ks, cs) =>
      LeftmostRightmost(cs[0]);
      LeftmostRightmost(cs[|ks|]);
      LeavesOfSplitAt(cs, 0);
      Seqs.Snoc(cs);
      LeavesOfAppend(cs[..|ks|], [cs[|ks|]]);
      LeavesOfOne(cs[|ks|]);
  }
}
