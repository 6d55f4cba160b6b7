/**
 * insert_recursive (b+tree/kvs.c:280-322) with split_leaf and split_internal
 * (193-277): on the leaf chain it is the reference insert InsertSorted, its
 * return value says whether the key was new, and it keeps the tree ordered,
 * balanced and within the node-size bounds while counting the nodes it
 * allocates; kvs_delete's tombstoning step (449-465) marks exactly the key.
 */
module BPlusTreeInsert {
  import opened Keys
  import opened Wrappers
  import opened BPlusTree
  import opened BPlusTreeProofs
  import Seqs

  /** What an insert result must satisfy for its parent to stay ordered over [lo, hi). */
  ghost predicate InsOrdered(r: Ins, lo: Option<Key>, hi: Option<Key>)
  {
    match r
    case Fit(n, _, _) => Ordered(n, lo, hi)
    case Split(l, up, rt, _, _) =>
      Ordered(l, lo, Some(up)) && Ordered(rt, Some(up), hi) && Above(lo, up) && Below(up, hi)
  }

  /** The halves of a split are full-height non-root nodes; a node that still fits keeps its role. */
  ghost predicate InsShaped(r: Ins, h: nat, isRoot: bool)
  {
    match r
    case Fit(n, _, _) => Shaped(n) && Balanced(n, h) && Bounded(n, isRoot)
    case Split(l, _, rt, _, _) =>
      Shaped(l) && Shaped(rt) && Balanced(l, h) && Balanced(rt, h) && Bounded(l, false) && Bounded(rt, false)
  }

  // ===== helpers about keys in sorted chains =====

  lemma SortedKeyOnlyAt(F: seq<Entry>, p: nat)
    requires EntriesSorted(F) && p < |F|
    ensures forall i :: 0 <= i < |F| && F[i].key == F[p].key ==> i == p
  {
    forall i | 0 <= i < |F| && F[i].key == F[p].key ensures i == p {
      if i < p { KeyTotal(F[i].key, F[p].key); }
      if i > p { KeyTotal(F[p].key, F[i].key); }
    }
  }

  lemma LessNotKey(F: seq<Entry>, k: Key)
    requires AllLess(F, k)
    ensures forall i :: 0 <= i < |F| ==> F[i].key != k
  {
    forall i | 0 <= i < |F| ensures F[i].key != k { KeyTotal(F[i].key, k); }
  }

  lemma GreaterNotKey(F: seq<Entry>, k: Key)
    requires AllGreater(F, k)
    ensures forall i :: 0 <= i < |F| ==> F[i].key != k
  {
    forall i | 0 <= i < |F| ensures F[i].key != k { KeyTotal(k, F[i].key); }
  }

  /** A sorted chain without a slot for k at the lower bound carries no entry of key k. */
  lemma NoKeyAtLowerBound(F: seq<Entry>, k: Key)
    requires EntriesSorted(F)
    requires !(LowerBound(F, k) < |F| && F[LowerBound(F, k)].key == k)
    ensures forall i :: 0 <= i < |F| ==> F[i].key != k
  {
    KeyNotFromLowerBound(F, k);
    forall i | 0 <= i < LowerBound(F, k) ensures F[i].key != k { KeyTotal(F[i].key, k); }
  }

  /** Only the middle part can contribute key k to the live map. */
  lemma LiveMapMiddle(A: seq<Entry>, C: seq<Entry>, B: seq<Entry>, k: Key)
    requires forall i :: 0 <= i < |A| ==> A[i].key != k
    requires forall i :: 0 <= i < |B| ==> B[i].key != k
    ensures (k in LiveMap(A + C + B)) <==> (k in LiveMap(C))
  {
    LiveMapAppend(A + C, B);
    LiveMapAppend(A, C);
    LiveMapAbsent(A, k);
    LiveMapAbsent(B, k);
  }

  // ===== the chain =====

  /**
   * The leaf case: updating a live key, reviving a tombstone and inserting a
   * new key (with or without split_leaf) all give InsertSorted on the entries,
   * and the result says "added" exactly when the key had no live entry.
   */
  lemma InsertLeafChain(es: seq<Entry>, e: Entry)
    requires EntriesSorted(es) && !e.deleted
    ensures InsChain(InsertLeaf(es, e)) == InsertSorted(es, e)
    ensures InsertLeaf(es, e).added <==> e.key !in LiveMap(es)
  {
    var k := e.key;
    var pos := LowerBound(es, k);
    InsertSortedAt(es, e);
    if pos < |es| {
      KeyCmpZero(es[pos].key, k);
    }
    if pos < |es| && es[pos].key == k {
      if !es[pos].deleted {
        LeafUpdateCase(es, e, pos);
      } else {
        LeafReviveCase(es, e, pos);
      }
    } else {
      LeafNewCase(es, e, pos);
    }
  }

  /** A live entry of the key gets the new value in place; nothing is added. */
  lemma LeafUpdateCase(es: seq<Entry>, e: Entry, pos: nat)
    requires EntriesSorted(es) && !e.deleted && pos == LowerBound(es, e.key)
    requires pos < |es| && es[pos].key == e.key && !es[pos].deleted
    requires InsertSorted(es, e) == es[pos := e]
    ensures InsChain(InsertLeaf(es, e)) == InsertSorted(es, e)
    ensures InsertLeaf(es, e).added <==> e.key !in LiveMap(es)
  {
    KeyCmpZero(es[pos].key, e.key);
    assert es[pos].(value := e.value) == e;
    LiveMapAt(es, pos);
  }

  /** A tombstone of the key is overwritten in place; the key comes back to life. */
  lemma LeafReviveCase(es: seq<Entry>, e: Entry, pos: nat)
    requires EntriesSorted(es) && !e.deleted && pos == LowerBound(es, e.key)
    requires pos < |es| && es[pos].key == e.key && es[pos].deleted
    requires InsertSorted(es, e) == es[pos := e]
    ensures InsChain(InsertLeaf(es, e)) == InsertSorted(es, e)
    ensures InsertLeaf(es, e).added <==> e.key !in LiveMap(es)
  {
    KeyCmpZero(es[pos].key, e.key);
    SortedKeyOnlyAt(es, pos);
    LiveMapAbsent(es, e.key);
  }

  /** A new key is inserted at its lower bound, and the leaf splits when it is full. */
  lemma LeafNewCase(es: seq<Entry>, e: Entry, pos: nat)
    requires EntriesSorted(es) && !e.deleted && pos == LowerBound(es, e.key)
    requires !(pos < |es| && es[pos].key == e.key)
    requires InsertSorted(es, e) == es[..pos] + [e] + es[pos..]
    ensures InsChain(InsertLeaf(es, e)) == InsertSorted(es, e)
    ensures InsertLeaf(es, e).added <==> e.key !in LiveMap(es)
  {
    if pos < |es| {
      KeyCmpZero(es[pos].key, e.key);
    }
    NoKeyAtLowerBound(es, e.key);
    LiveMapAbsent(es, e.key);
    var grown := es[..pos] + [e] + es[pos..];
    Seqs.TakeDrop(grown, |grown| / 2);
  }

  /** Taking in a child's result puts its chain where the child's chain was. */
  lemma WidenChain(ks: seq<Key>, cs: seq<Node>, pos: nat, sub: Ins)
    requires |cs| == |ks| + 1 && pos < |cs|
    ensures ChainOf(Widen(ks, cs, pos, sub).1) == ChainOf(cs[..pos]) + InsChain(sub) + ChainOf(cs[pos + 1..])
  {
    if sub.Fit? {
      ChainOfReplace(cs, pos, sub.node);
    } else {
      ChainOfTwo(cs, pos, sub.left, sub.right);
    }
  }

  /** split_internal hands its children to the two halves in order, so the chain is unchanged. */
  lemma FillChain(ks: seq<Key>, cs: seq<Node>, added: bool, created: nat)
    requires |cs| == |ks| + 1
    ensures InsChain(Fill(ks, cs, added, created)) == ChainOf(cs)
  {
    if |ks| >= ORDER - 1 {
      var mid := |ks| / 2;
      Seqs.TakeDrop(cs, mid + 1);
      ChainOfAppend(cs[..mid + 1], cs[mid + 1..]);
    }
  }

  lemma AbsorbChain(ks: seq<Key>, cs: seq<Node>, pos: nat, sub: Ins)
    requires |cs| == |ks| + 1 && pos < |cs|
    ensures InsChain(Absorb(ks, cs, pos, sub)) == ChainOf(cs[..pos]) + InsChain(sub) + ChainOf(cs[pos + 1..])
    ensures Absorb(ks, cs, pos, sub).added == sub.added
  {
    var w := Widen(ks, cs, pos, sub);
    WidenChain(ks, cs, pos, sub);
    FillChain(w.0, w.1, sub.added, sub.created);
  }

  /**
   * insert_recursive acts on the leaf chain as InsertSorted does, and returns
   * 1 exactly when the key had no live entry before.
   */
  lemma {:induction false} InsertChain(n: Node, e: Entry, lo: Option<Key>, hi: Option<Key>)
    requires Shaped(n) && Ordered(n, lo, hi) && !e.deleted
    ensures InsChain(InsertNode(n, e)) == InsertSorted(Chain(n), e)
    ensures InsertNode(n, e).added <==> e.key !in LiveMap(Chain(n))
    decreases n
  {
    match n
    case Leaf(es) =>
      InsertLeafChain(es, e);
    case Internal(ks, cs) =>
      var k := e.key;
      var pos := UpperBound(ks, k);
      ChildDecomp(ks, cs, lo, hi, k);
      InsertChain(cs[pos], e, ChildLo(ks, lo, pos), ChildHi(ks, hi, pos));
      AbsorbStepChain(ks, cs, pos, InsertNode(cs[pos], e), e);
  }

  /** One level of InsertChain: a child that acted as InsertSorted on its chain makes its parent do so too. */
  lemma AbsorbStepChain(ks: seq<Key>, cs: seq<Node>, pos: nat, sub: Ins, e: Entry)
    requires |cs| == |ks| + 1 && pos < |cs|
    requires ChainOf(cs) == ChainOf(cs[..pos]) + Chain(cs[pos]) + ChainOf(cs[pos + 1..])
    requires AllLess(ChainOf(cs[..pos]), e.key) && AllGreater(ChainOf(cs[pos + 1..]), e.key)
    requires InsChain(sub) == InsertSorted(Chain(cs[pos]), e)
    requires sub.added <==> e.key !in LiveMap(Chain(cs[pos]))
    ensures InsChain(Absorb(ks, cs, pos, sub)) == InsertSorted(ChainOf(cs), e)
    ensures Absorb(ks, cs, pos, sub).added <==> e.key !in LiveMap(ChainOf(cs))
  {
    AbsorbChain(ks, cs, pos, sub);
    InsertSortedMiddle(ChainOf(cs[..pos]), Chain(cs[pos]), ChainOf(cs[pos + 1..]), e);
  }

  /** Inserting a key that lies strictly between A and B only touches the middle part. */
  lemma InsertSortedMiddle(A: seq<Entry>, C: seq<Entry>, B: seq<Entry>, e: Entry)
    requires AllLess(A, e.key) && AllGreater(B, e.key)
    ensures InsertSorted(A + C + B, e) == A + InsertSorted(C, e) + B
    ensures (e.key in LiveMap(A + C + B)) <==> (e.key in LiveMap(C))
  {
    InsertSortedAfter(A, C + B, e);
    InsertSortedBefore(C, B, e);
    Seqs.Associative(A, C, B);
    Seqs.Associative(A, InsertSorted(C, e), B);
    LessNotKey(A, e.key);
    GreaterNotKey(B, e.key);
    LiveMapMiddle(A, C, B, e.key);
  }

  // ===== order =====

  /** split_leaf: both halves are ordered around the first key of the right half, which lies strictly inside the range. */
  lemma SplitLeafOrdered(G: seq<Entry>, lo: Option<Key>, hi: Option<Key>, mid: nat)
    requires EntriesSorted(G) && AllIn(G, lo, hi) && 1 <= mid < |G|
    ensures Ordered(Leaf(G[..mid]), lo, Some(G[mid].key))
    ensures Ordered(Leaf(G[mid..]), Some(G[mid].key), hi)
    ensures Above(lo, G[mid].key) && Below(G[mid].key, hi)
  {
    var up := G[mid].key;
    var R := G[mid..];
    forall i | 0 <= i < |R| ensures KeyLe(up, R[i].key) {
      assert R[i] == G[mid + i];
      if i == 0 { KeyCmpZero(up, up); }
    }
    if lo.Some? {
      KeyLeLessTrans(lo.value, G[0].key, up);
    }
  }

  lemma InsertLeafOrdered(es: seq<Entry>, e: Entry, lo: Option<Key>, hi: Option<Key>)
    requires Ordered(Leaf(es), lo, hi) && !e.deleted && AtLeast(lo, e.key) && Below(e.key, hi)
    ensures InsOrdered(InsertLeaf(es, e), lo, hi)
  {
    var pos := LowerBound(es, e.key);
    InsertSortedOrdered(es, e, lo, hi);
    if pos < |es| {
      KeyCmpZero(es[pos].key, e.key);
    }
    if pos < |es| && es[pos].key == e.key {
      InsertLeafChain(es, e);
    } else {
      InsertSortedAt(es, e);
      GrownLeafOrdered(es[..pos] + [e] + es[pos..], lo, hi);
    }
  }

  /** The leaf grown by the new entry is ordered, whether it still fits or split_leaf halves it. */
  lemma GrownLeafOrdered(G: seq<Entry>, lo: Option<Key>, hi: Option<Key>)
    requires EntriesSorted(G) && AllIn(G, lo, hi) && |G| >= 1
    ensures InsOrdered(if |G| >= ORDER - 1 then
        Split(Leaf(G[..|G| / 2]), G[|G| / 2].key, Leaf(G[|G| / 2..]), true, 1)
      else Fit(Leaf(G), true, 0), lo, hi)
  {
    if |G| >= ORDER - 1 {
      SplitLeafOrdered(G, lo, hi, |G| / 2);
    }
  }

  /** Replacing a child by one ordered over the same range keeps the node ordered. */
  lemma ReplaceChildOrdered(ks: seq<Key>, cs: seq<Node>, lo: Option<Key>, hi: Option<Key>, pos: nat, c: Node)
    requires Ordered(Internal(ks, cs), lo, hi) && pos < |cs|
    requires Ordered(c, ChildLo(ks, lo, pos), ChildHi(ks, hi, pos))
    ensures Ordered(Internal(ks, cs[pos := c]), lo, hi)
  {
  }

  /** The separator of a split child lies strictly between its neighbours, so it can go in at the child's slot. */
  lemma SeparatorFits(ks: seq<Key>, lo: Option<Key>, hi: Option<Key>, pos: nat, up: Key)
    requires KeysSorted(ks) && pos <= |ks|
    requires forall i :: 0 <= i < |ks| ==> AtLeast(lo, ks[i]) && Below(ks[i], hi)
    requires Above(ChildLo(ks, lo, pos), up) && Below(up, ChildHi(ks, hi, pos))
    ensures KeysSorted(ks[..pos] + [up] + ks[pos..])
    ensures AtLeast(lo, up) && Below(up, hi)
  {
    var ks2 := ks[..pos] + [up] + ks[pos..];
    forall i, j | 0 <= i < j < |ks2| ensures KeyLess(ks2[i], ks2[j]) {
      if j < pos {
        assert ks2[i] == ks[i] && ks2[j] == ks[j];
      } else if j == pos {
        assert ks2[i] == ks[i] && ks2[j] == up;
        if i < pos - 1 { KeyLessTrans(ks[i], ks[pos - 1], up); }
      } else if i > pos {
        assert ks2[i] == ks[i - 1] && ks2[j] == ks[j - 1];
      } else if i == pos {
        assert ks2[j] == ks[j - 1];
        if j - 1 > pos { KeyLessTrans(up, ks[pos], ks[j - 1]); }
      } else {
        assert ks2[i] == ks[i] && ks2[j] == ks[j - 1];
      }
    }
    if pos > 0 && lo.Some? {
      KeyLeLessTrans(lo.value, ks[pos - 1], up);
    }
    if pos < |ks| && hi.Some? {
      KeyLessTrans(up, ks[pos], hi.value);
    }
  }

  /** split_leaf / split_internal's parent step: the separator and the new right sibling go in at the child's slot. */
  lemma InsertSplitChild(ks: seq<Key>, cs: seq<Node>, lo: Option<Key>, hi: Option<Key>, pos: nat,
                         l: Node, up: Key, r: Node)
    requires Ordered(Internal(ks, cs), lo, hi) && pos < |cs|
    requires Ordered(l, ChildLo(ks, lo, pos), Some(up)) && Ordered(r, Some(up), ChildHi(ks, hi, pos))
    requires Above(ChildLo(ks, lo, pos), up) && Below(up, ChildHi(ks, hi, pos))
    ensures Ordered(Internal(ks[..pos] + [up] + ks[pos..], cs[..pos] + [l, r] + cs[pos + 1..]), lo, hi)
  {
    var ks2 := ks[..pos] + [up] + ks[pos..];
    var cs2 := cs[..pos] + [l, r] + cs[pos + 1..];
    SeparatorFits(ks, lo, hi, pos, up);
    forall i | 0 <= i < |ks2| ensures AtLeast(lo, ks2[i]) && Below(ks2[i], hi) {
      if i < pos { assert ks2[i] == ks[i]; }
      else if i > pos { assert ks2[i] == ks[i - 1]; }
    }
    forall i | 0 <= i < |cs2| ensures Ordered(cs2[i], ChildLo(ks2, lo, i), ChildHi(ks2, hi, i)) {
      SplitChildAt(ks, cs, lo, hi, pos, l, up, r, i);
    }
  }

  /** Child i of the widened node has the range of the child it came from, or half of the split child's range. */
  lemma SplitChildAt(ks: seq<Key>, cs: seq<Node>, lo: Option<Key>, hi: Option<Key>, pos: nat,
                     l: Node, up: Key, r: Node, i: nat)
    requires Ordered(Internal(ks, cs), lo, hi) && pos < |cs| && i < |cs| + 1
    requires Ordered(l, ChildLo(ks, lo, pos), Some(up)) && Ordered(r, Some(up), ChildHi(ks, hi, pos))
    ensures var ks2, cs2 := ks[..pos] + [up] + ks[pos..], cs[..pos] + [l, r] + cs[pos + 1..];
      Ordered(cs2[i], ChildLo(ks2, lo, i), ChildHi(ks2, hi, i))
  {
    var ks2, cs2 := ks[..pos] + [up] + ks[pos..], cs[..pos] + [l, r] + cs[pos + 1..];
    if i < pos {
      assert cs2[i] == cs[i] && ChildLo(ks2, lo, i) == ChildLo(ks, lo, i);
      assert ChildHi(ks2, hi, i) == Some(ks[i]) == ChildHi(ks, hi, i);
    } else if i == pos {
      assert cs2[i] == l && ChildLo(ks2, lo, i) == ChildLo(ks, lo, pos);
    } else if i == pos + 1 {
      assert cs2[i] == r && ChildLo(ks2, lo, i) == Some(up);
      assert ChildHi(ks2, hi, i) == ChildHi(ks, hi, pos);
    } else {
      assert cs2[i] == cs[i - 1];
      assert ChildLo(ks2, lo, i) == Some(ks[i - 2]) == ChildLo(ks, lo, i - 1);
      assert ChildHi(ks2, hi, i) == ChildHi(ks, hi, i - 1);
    }
  }

  /** split_internal: the middle key moves up and both halves are ordered around it. */
  lemma SplitInternalOrdered(ks: seq<Key>, cs: seq<Node>, lo: Option<Key>, hi: Option<Key>, mid: nat)
    requires Ordered(Internal(ks, cs), lo, hi) && 1 <= mid < |ks|
    ensures Ordered(Internal(ks[..mid], cs[..mid + 1]), lo, Some(ks[mid]))
    ensures Ordered(Internal(ks[mid + 1..], cs[mid + 1..]), Some(ks[mid]), hi)
    ensures Above(lo, ks[mid]) && Below(ks[mid], hi)
  {
    var up := ks[mid];
    SplitLeftOrdered(ks, cs, lo, hi, mid);
    SplitRightOrdered(ks, cs, lo, hi, mid);
    if lo.Some? {
      KeyLeLessTrans(lo.value, ks[0], up);
    }
  }

  /** The left half of split_internal keeps the lower bound and is bounded above by the key moving up. */
  lemma SplitLeftOrdered(ks: seq<Key>, cs: seq<Node>, lo: Option<Key>, hi: Option<Key>, mid: nat)
    requires Ordered(Internal(ks, cs), lo, hi) && 1 <= mid < |ks|
    ensures Ordered(Internal(ks[..mid], cs[..mid + 1]), lo, Some(ks[mid]))
  {
    var up := ks[mid];
    var lk, lc := ks[..mid], cs[..mid + 1];
    forall i | 0 <= i < |lk| ensures AtLeast(lo, lk[i]) && Below(lk[i], Some(up)) {
      assert lk[i] == ks[i] && KeyLess(ks[i], ks[mid]);
    }
    forall i | 0 <= i < |lc| ensures Ordered(lc[i], ChildLo(lk, lo, i), ChildHi(lk, Some(up), i)) {
      assert lc[i] == cs[i] && ChildLo(lk, lo, i) == ChildLo(ks, lo, i);
      assert ChildHi(lk, Some(up), i) == ChildHi(ks, hi, i);
    }
  }

  /** The right half of split_internal is bounded below by the key moving up and keeps the upper bound. */
  lemma SplitRightOrdered(ks: seq<Key>, cs: seq<Node>, lo: Option<Key>, hi: Option<Key>, mid: nat)
    requires Ordered(Internal(ks, cs), lo, hi) && 1 <= mid < |ks|
    ensures Ordered(Internal(ks[mid + 1..], cs[mid + 1..]), Some(ks[mid]), hi)
  {
    var up := ks[mid];
    var rk, rc := ks[mid + 1..], cs[mid + 1..];
    forall i | 0 <= i < |rk| ensures AtLeast(Some(up), rk[i]) && Below(rk[i], hi) {
      assert rk[i] == ks[mid + 1 + i] && KeyLess(ks[mid], ks[mid + 1 + i]);
    }
    forall i | 0 <= i < |rc| ensures Ordered(rc[i], ChildLo(rk, Some(up), i), ChildHi(rk, hi, i)) {
      assert rc[i] == cs[mid + 1 + i];
      assert ChildLo(rk, Some(up), i) == ChildLo(ks, lo, mid + 1 + i);
      assert ChildHi(rk, hi, i) == ChildHi(ks, hi, mid + 1 + i);
    }
  }

  lemma WidenOrdered(ks: seq<Key>, cs: seq<Node>, lo: Option<Key>, hi: Option<Key>, pos: nat, sub: Ins)
    requires Ordered(Internal(ks, cs), lo, hi) && pos < |cs|
    requires InsOrdered(sub, ChildLo(ks, lo, pos), ChildHi(ks, hi, pos))
    ensures Ordered(Internal(Widen(ks, cs, pos, sub).0, Widen(ks, cs, pos, sub).1), lo, hi)
  {
    if sub.Fit? {
      ReplaceChildOrdered(ks, cs, lo, hi, pos, sub.node);
    } else {
      InsertSplitChild(ks, cs, lo, hi, pos, sub.left, sub.up, sub.right);
    }
  }

  lemma FillOrdered(ks: seq<Key>, cs: seq<Node>, lo: Option<Key>, hi: Option<Key>, added: bool, created: nat)
    requires Ordered(Internal(ks, cs), lo, hi)
    ensures InsOrdered(Fill(ks, cs, added, created), lo, hi)
  {
    if |ks| >= ORDER - 1 {
      SplitInternalOrdered(ks, cs, lo, hi, |ks| / 2);
    }
  }

  lemma AbsorbOrdered(ks: seq<Key>, cs: seq<Node>, lo: Option<Key>, hi: Option<Key>, pos: nat, sub: Ins)
    requires Ordered(Internal(ks, cs), lo, hi) && pos < |cs|
    requires InsOrdered(sub, ChildLo(ks, lo, pos), ChildHi(ks, hi, pos))
    ensures InsOrdered(Absorb(ks, cs, pos, sub), lo, hi)
  {
    var w := Widen(ks, cs, pos, sub);
    WidenOrdered(ks, cs, lo, hi, pos, sub);
    FillOrdered(w.0, w.1, lo, hi, sub.added, sub.created);
  }

  /** insert_recursive keeps keys ordered: a result that fits stays in the range, a split one splits it at `up`. */
  lemma {:induction false} InsertOrdered(n: Node, e: Entry, lo: Option<Key>, hi: Option<Key>)
    requires Shaped(n) && Ordered(n, lo, hi) && !e.deleted && AtLeast(lo, e.key) && Below(e.key, hi)
    ensures InsOrdered(InsertNode(n, e), lo, hi)
    decreases n
  {
    match n
    case Leaf(es) =>
      InsertLeafOrdered(es, e, lo, hi);
    case Internal(ks, cs) =>
      var pos := UpperBound(ks, e.key);
      ChildDecomp(ks, cs, lo, hi, e.key);
      InsertOrdered(cs[pos], e, ChildLo(ks, lo, pos), ChildHi(ks, hi, pos));
      AbsorbOrdered(ks, cs, lo, hi, pos, InsertNode(cs[pos], e));
  }

  // ===== shape and size =====

  /** Every child is a well-shaped non-root subtree of height h. */
  ghost predicate ChildrenFit(cs: seq<Node>, h: nat)
  {
    forall i :: 0 <= i < |cs| ==> Shaped(cs[i]) && Balanced(cs[i], h) && Bounded(cs[i], false)
  }

  /** A leaf holding at most ORDER-2 entries either takes one more or splits into halves of MIN_KEYS and MIN_KEYS+1. */
  lemma InsertLeafShape(es: seq<Entry>, e: Entry, isRoot: bool)
    requires Bounded(Leaf(es), isRoot)
    ensures InsShaped(InsertLeaf(es, e), 1, isRoot)
  {
  }

  lemma WidenShape(ks: seq<Key>, cs: seq<Node>, pos: nat, sub: Ins, h: nat)
    requires |cs| == |ks| + 1 && pos < |cs| && ChildrenFit(cs, h) && InsShaped(sub, h, false)
    ensures ChildrenFit(Widen(ks, cs, pos, sub).1, h)
  {
    var cs2 := Widen(ks, cs, pos, sub).1;
    if sub.Split? {
      forall i | 0 <= i < |cs2| ensures Shaped(cs2[i]) && Balanced(cs2[i], h) && Bounded(cs2[i], false) {
        if i < pos { assert cs2[i] == cs[i]; }
        else if i == pos { assert cs2[i] == sub.left; }
        else if i == pos + 1 { assert cs2[i] == sub.right; }
        else { assert cs2[i] == cs[i - 1]; }
      }
    }
  }

  /** split_internal on ORDER-1 keys leaves MIN_KEYS keys on each side. */
  lemma FillShape(ks: seq<Key>, cs: seq<Node>, h: nat, isRoot: bool, added: bool, created: nat)
    requires |cs| == |ks| + 1 && h > 1 && ChildrenFit(cs, h - 1)
    requires (if isRoot then 1 else MIN_KEYS) <= |ks| <= ORDER - 1
    ensures InsShaped(Fill(ks, cs, added, created), h, isRoot)
  {
    if |ks| >= ORDER - 1 {
      var mid := |ks| / 2;
      var lc, rc := cs[..mid + 1], cs[mid + 1..];
      assert forall i :: 0 <= i < |lc| ==> lc[i] == cs[i];
      assert forall i :: 0 <= i < |rc| ==> rc[i] == cs[mid + 1 + i];
    }
  }

  /** insert_recursive keeps every leaf at the same depth and every node within its size bounds. */
  lemma {:induction false} InsertShape(n: Node, e: Entry, h: nat, isRoot: bool)
    requires Shaped(n) && Balanced(n, h) && Bounded(n, isRoot)
    ensures InsShaped(InsertNode(n, e), h, isRoot)
    decreases n
  {
    match n
    case Leaf(es) =>
      InsertLeafShape(es, e, isRoot);
    case Internal(ks, cs) =>
      var pos := UpperBound(ks, e.key);
      InsertShape(cs[pos], e, h - 1, false);
      var sub := InsertNode(cs[pos], e);
      WidenShape(ks, cs, pos, sub, h - 1);
      var w := Widen(ks, cs, pos, sub);
      FillShape(w.0, w.1, h, isRoot, sub.added, sub.created);
  }

  lemma WidenCount(ks: seq<Key>, cs: seq<Node>, pos: nat, sub: Ins)
    requires |cs| == |ks| + 1 && pos < |cs|
    ensures NodeCountOf(Widen(ks, cs, pos, sub).1) + NodeCount(cs[pos]) == NodeCountOf(cs) + InsNodeCount(sub)
  {
    if sub.Fit? {
      NodeCountOfReplace(cs, pos, sub.node);
    } else {
      NodeCountOfTwo(cs, pos, sub.left, sub.right);
    }
  }

  lemma FillCount(ks: seq<Key>, cs: seq<Node>, added: bool, created: nat)
    requires |cs| == |ks| + 1
    ensures InsNodeCount(Fill(ks, cs, added, created)) + created == NodeCount(Internal(ks, cs)) + Fill(ks, cs, added, created).created
  {
    if |ks| >= ORDER - 1 {
      var mid := |ks| / 2;
      Seqs.TakeDrop(cs, mid + 1);
      NodeCountOfAppend(cs[..mid + 1], cs[mid + 1..]);
    }
  }

  /** Every node of the result is an old node or one that bpnode_new allocated on the way back up. */
  lemma {:induction false} InsertCount(n: Node, e: Entry)
    requires Shaped(n)
    ensures InsNodeCount(InsertNode(n, e)) == NodeCount(n) + InsertNode(n, e).created
    decreases n
  {
    match n
    case Leaf(es) =>
    case Internal(ks, cs) =>
      var pos := UpperBound(ks, e.key);
      InsertCount(cs[pos], e);
      var sub := InsertNode(cs[pos], e);
      WidenCount(ks, cs, pos, sub);
      var w := Widen(ks, cs, pos, sub);
      FillCount(w.0, w.1, sub.added, sub.created);
  }

  // ===== the root =====

  lemma ChainOfPair(l: Node, r: Node)
    ensures ChainOf([l, r]) == Chain(l) + Chain(r)
    ensures NodeCountOf([l, r]) == NodeCount(l) + NodeCount(r)
  {
    Seqs.Pair(l, r);
    ChainOfAppend([l], [r]);
    ChainOfOne(l);
    ChainOfOne(r);
    NodeCountOfAppend([l], [r]);
    NodeCountOfOne(l);
    NodeCountOfOne(r);
  }

  /** The height the tree has after an insert: one more when the root split. */
  function HeightAfter(r: Ins, h: nat): nat
  {
    if r.Split? then h + 1 else h
  }

  /**
   * kvs_put_raw's tree step keeps the tree invariant: after insert_recursive
   * and, when the root split, the new root of split_leaf / split_internal with
   * one key and two children, the tree is ordered, balanced at the new height
   * and within its size bounds.
   */
  lemma PutTreeInv(root: Node, h: nat, e: Entry)
    requires TreeInv(root, h) && !e.deleted
    ensures TreeInv(RootAfter(InsertNode(root, e)), HeightAfter(InsertNode(root, e), h))
  {
    var r := InsertNode(root, e);
    InsertOrdered(root, e, None, None);
    InsertShape(root, e, h, true);
    if r.Split? {
      assert ChildLo([r.up], None, 1) == Some(r.up);
    }
  }

  /**
   * On the contents, kvs_put_raw's tree step is InsertSorted on the chain: the
   * live map gains the binding, and insert_recursive reports "added" exactly
   * when the key had no live entry.
   */
  lemma PutTreeChain(root: Node, h: nat, e: Entry)
    requires TreeInv(root, h) && !e.deleted
    ensures Chain(RootAfter(InsertNode(root, e))) == InsertSorted(Chain(root), e)
    ensures LiveMap(Chain(RootAfter(InsertNode(root, e)))) == LiveMap(Chain(root))[e.key := e.value]
    ensures InsertNode(root, e).added <==> e.key !in LiveMap(Chain(root))
  {
    var r := InsertNode(root, e);
    InsertChain(root, e, None, None);
    ChainInBounds(root, None, None);
    InsertSortedLive(Chain(root), e);
    if r.Split? {
      ChainOfPair(r.left, r.right);
    }
  }

  /** db->node_count after a put: every bpnode_new call, including a new root's, adds one node. */
  lemma PutTreeCount(root: Node, e: Entry)
    requires Shaped(root)
    ensures NodeCount(RootAfter(InsertNode(root, e))) ==
      NodeCount(root) + InsertNode(root, e).created + (if InsertNode(root, e).Split? then 1 else 0)
  {
    var r := InsertNode(root, e);
    InsertCount(root, e);
    if r.Split? {
      ChainOfPair(r.left, r.right);
    }
  }

  // ===== tombstones =====

  /** Marking k in A + C + B marks only C when A and B have no entry of key k. */
  lemma MarkKeyMiddle(A: seq<Entry>, C: seq<Entry>, B: seq<Entry>, k: Key)
    requires AllLess(A, k) && AllGreater(B, k)
    ensures MarkKey(A + C + B, k) == A + MarkKey(C, k) + B
  {
    MarkKeyAppend(A + C, B, k);
    MarkKeyAppend(A, C, k);
    LessNotKey(A, k);
    GreaterNotKey(B, k);
    MarkKeyAbsent(A, k);
    MarkKeyAbsent(B, k);
  }

  lemma TombstoneLeafChain(es: seq<Entry>, k: Key)
    requires EntriesSorted(es)
    ensures Chain(Tombstone(Leaf(es), k)) == MarkKey(es, k)
  {
    var pos := LowerBound(es, k);
    if pos < |es| {
      KeyCmpZero(es[pos].key, k);
    }
    if pos < |es| && es[pos].key == k {
      SortedKeyOnlyAt(es, pos);
      var t := es[pos := es[pos].(deleted := true)];
      assert forall i :: 0 <= i < |es| ==> t[i] == MarkKey(es, k)[i];
    } else {
      NoKeyAtLowerBound(es, k);
      MarkKeyAbsent(es, k);
    }
  }

  /** kvs_delete's tombstoning step on the leaf chain: every entry of key k is marked deleted, nothing else changes. */
  lemma {:induction false} TombstoneChain(n: Node, k: Key, lo: Option<Key>, hi: Option<Key>)
    requires Shaped(n) && Ordered(n, lo, hi)
    ensures Chain(Tombstone(n, k)) == MarkKey(Chain(n), k)
    decreases n
  {
    match n
    case Leaf(es) =>
      TombstoneLeafChain(es, k);
    case Internal(ks, cs) =>
      var pos := UpperBound(ks, k);
      LeftChildrenLess(ks, cs, lo, hi, k);
      RightChildrenGreater(ks, cs, lo, hi, k);
      TombstoneChain(cs[pos], k, ChildLo(ks, lo, pos), ChildHi(ks, hi, pos));
      TombstoneStep(ks, cs, k);
  }

  lemma TombstoneStep(ks: seq<Key>, cs: seq<Node>, k: Key)
    requires Shaped(Internal(ks, cs)) && UpperBound(ks, k) < |cs|
    requires AllLess(ChainOf(cs[..UpperBound(ks, k)]), k) && AllGreater(ChainOf(cs[UpperBound(ks, k) + 1..]), k)
    requires Chain(Tombstone(cs[UpperBound(ks, k)], k)) == MarkKey(Chain(cs[UpperBound(ks, k)]), k)
    ensures Chain(Tombstone(Internal(ks, cs), k)) == MarkKey(ChainOf(cs), k)
  {
    var pos := UpperBound(ks, k);
    ChainOfReplace(cs, pos, Tombstone(cs[pos], k));
    ChainOfSplitAt(cs, pos);
    MarkKeyMiddle(ChainOf(cs[..pos]), Chain(cs[pos]), ChainOf(cs[pos + 1..]), k);
  }

  /** The tombstoning step changes no key and no node, so every structural invariant survives it. */
  lemma {:induction false} TombstoneShape(n: Node, k: Key, lo: Option<Key>, hi: Option<Key>, h: nat, isRoot: bool)
    requires Shaped(n) && Ordered(n, lo, hi) && Balanced(n, h) && Bounded(n, isRoot)
    ensures var t := Tombstone(n, k);
      Shaped(t) && Ordered(t, lo, hi) && Balanced(t, h) && Bounded(t, isRoot) && NodeCount(t) == NodeCount(n)
    decreases n
  {
    match n
    case Leaf(es) =>
      var t := Tombstone(n, k).entries;
      assert forall i :: 0 <= i < |es| ==> t[i].key == es[i].key;
    case Internal(ks, cs) =>
      var pos := UpperBound(ks, k);
      TombstoneShape(cs[pos], k, ChildLo(ks, lo, pos), ChildHi(ks, hi, pos), h - 1, false);
      ReplaceChildOrdered(ks, cs, lo, hi, pos, Tombstone(cs[pos], k));
      ReplaceChildShape(ks, cs, h, isRoot, pos, Tombstone(cs[pos], k));
      NodeCountOfReplace(cs, pos, Tombstone(cs[pos], k));
  }

  /** A child replaced by one of the same height and the same size class keeps the node balanced and within bounds. */
  lemma ReplaceChildShape(ks: seq<Key>, cs: seq<Node>, h: nat, isRoot: bool, pos: nat, c: Node)
    requires Shaped(Internal(ks, cs)) && Balanced(Internal(ks, cs), h) && Bounded(Internal(ks, cs), isRoot) && pos < |cs|
    requires Shaped(c) && Balanced(c, h - 1) && Bounded(c, false)
    ensures var n := Internal(ks, cs[pos := c]);
      Shaped(n) && Balanced(n, h) && Bounded(n, isRoot)
  {
  }

  /** kvs_delete on the whole tree: the invariant holds and the key leaves the live map. */
  lemma DeleteTree(root: Node, h: nat, k: Key)
    requires TreeInv(root, h)
    ensures TreeInv(Tombstone(root, k), h)
    ensures LiveMap(Chain(Tombstone(root, k))) == LiveMap(Chain(root)) - {k}
    ensures NodeCount(Tombstone(root, k)) == NodeCount(root)
  {
    TombstoneShape(root, k, None, None, h, true);
    TombstoneChain(root, k, None, None);
    MarkKeyLive(Chain(root), k);
  }
}
