/**
 * Facts about the B+tree value model: how the leaf chain decomposes along a
 * descent, how the reference insert and the live map behave on a sorted
 * chain, and that insert_recursive and the tombstoning step keep every tree
 * invariant while acting on the chain exactly as the reference says.
 */
module BPlusTreeProofs {
  import opened Keys
  import opened Wrappers
  import opened BPlusTree
  import Seqs

  // ===== chains of child sequences =====

  lemma {:induction false} ChainOfAppend(a: seq<Node>, b: seq<Node>)
    ensures ChainOf(a + b) == ChainOf(a) + ChainOf(b)
    decreases |b|
  {
    if |b| == 0 {
      Seqs.AppendNothing(a);
    } else {
      Seqs.WithoutLast(a, b);
      ChainOfAppend(a, b[..|b| - 1]);
    }
  }

  lemma ChainOfOne(c: Node)
    ensures ChainOf([c]) == Chain(c)
  {
    Seqs.TakeOne(c);
  }

  lemma ChainOfSplitAt(cs: seq<Node>, pos: nat)
    requires pos < |cs|
    ensures ChainOf(cs) == ChainOf(cs[..pos]) + Chain(cs[pos]) + ChainOf(cs[pos + 1..])
  {
    Seqs.Split3(cs, pos);
    ChainOfAppend(cs[..pos], cs[pos..]);
    ChainOfAppend([cs[pos]], cs[pos + 1..]);
    ChainOfOne(cs[pos]);
  }

  lemma ChainOfReplace(cs: seq<Node>, pos: nat, c: Node)
    requires pos < |cs|
    ensures ChainOf(cs[pos := c]) == ChainOf(cs[..pos]) + Chain(c) + ChainOf(cs[pos + 1..])
  {
    Seqs.Update(cs, pos, c);
    ChainOfSplitAt(cs[pos := c], pos);
  }

  lemma ChainOfTwo(cs: seq<Node>, pos: nat, l: Node, r: Node)
    requires pos < |cs|
    ensures ChainOf(cs[..pos] + [l, r] + cs[pos + 1..]) == ChainOf(cs[..pos]) + Chain(l) + Chain(r) + ChainOf(cs[pos + 1..])
  {
    ChainOfAppend(cs[..pos] + [l, r], cs[pos + 1..]);
    ChainOfAppend(cs[..pos], [l, r]);
    Seqs.Pair(l, r);
    ChainOfAppend([l], [r]);
    ChainOfOne(l);
    ChainOfOne(r);
  }

  lemma {:induction false} NodeCountOfAppend(a: seq<Node>, b: seq<Node>)
    ensures NodeCountOf(a + b) == NodeCountOf(a) + NodeCountOf(b)
    decreases |b|
  {
    if |b| == 0 {
      Seqs.AppendNothing(a);
    } else {
      Seqs.WithoutLast(a, b);
      NodeCountOfAppend(a, b[..|b| - 1]);
    }
  }

  lemma NodeCountOfOne(c: Node)
    ensures NodeCountOf([c]) == NodeCount(c)
  {
    Seqs.TakeOne(c);
  }

  lemma NodeCountOfReplace(cs: seq<Node>, pos: nat, c: Node)
    requires pos < |cs|
    ensures NodeCountOf(cs[pos := c]) + NodeCount(cs[pos]) == NodeCountOf(cs) + NodeCount(c)
  {
    Seqs.Split3(cs, pos);
    Seqs.Update(cs, pos, c);
    NodeCountOfAppend(cs[..pos] + [cs[pos]], cs[pos + 1..]);
    NodeCountOfAppend(cs[..pos], [cs[pos]]);
    NodeCountOfAppend(cs[..pos] + [c], cs[pos + 1..]);
    NodeCountOfAppend(cs[..pos], [c]);
    NodeCountOfOne(c);
    NodeCountOfOne(cs[pos]);
  }

  lemma NodeCountOfTwo(cs: seq<Node>, pos: nat, l: Node, r: Node)
    requires pos < |cs|
    ensures NodeCountOf(cs[..pos] + [l, r] + cs[pos + 1..]) + NodeCount(cs[pos]) == NodeCountOf(cs) + NodeCount(l) + NodeCount(r)
  {
    Seqs.Split3(cs, pos);
    NodeCountOfAppend(cs[..pos] + [cs[pos]], cs[pos + 1..]);
    NodeCountOfAppend(cs[..pos], [cs[pos]]);
    NodeCountOfOne(cs[pos]);
    NodeCountOfAppend(cs[..pos] + [l, r], cs[pos + 1..]);
    NodeCountOfAppend(cs[..pos], [l, r]);
    Seqs.Pair(l, r);
    NodeCountOfAppend([l], [r]);
    NodeCountOfOne(l);
    NodeCountOfOne(r);
  }

  // ===== bounds and sortedness of chains =====

  lemma SortedConcat(a: seq<Entry>, b: seq<Entry>, m: Key)
    requires EntriesSorted(a) && EntriesSorted(b) && AllLess(a, m)
    requires forall i :: 0 <= i < |b| ==> KeyLe(m, b[i].key)
    ensures EntriesSorted(a + b)
  {
    var c := a + b;
    forall i, j | 0 <= i < j < |c| ensures KeyLess(c[i].key, c[j].key) {
      if j < |a| {
        assert c[i] == a[i] && c[j] == a[j];
      } else if i >= |a| {
        assert c[i] == b[i - |a|] && c[j] == b[j - |a|];
      } else {
        assert c[i] == a[i] && c[j] == b[j - |a|];
        KeyLessLeTrans(a[i].key, m, b[j - |a|].key);
      }
    }
  }

  lemma {:induction false} ChainOfAllLess(cs: seq<Node>, k: Key)
    requires forall j :: 0 <= j < |cs| ==> AllLess(Chain(cs[j]), k)
    ensures AllLess(ChainOf(cs), k)
    decreases |cs|
  {
    if |cs| > 0 {
      ChainOfAllLess(cs[..|cs| - 1], k);
    }
  }

  lemma {:induction false} ChainOfAllGreater(cs: seq<Node>, k: Key)
    requires forall j :: 0 <= j < |cs| ==> AllGreater(Chain(cs[j]), k)
    ensures AllGreater(ChainOf(cs), k)
    decreases |cs|
  {
    if |cs| > 0 {
      ChainOfAllGreater(cs[..|cs| - 1], k);
    }
  }

  /** An ordered subtree's chain is strictly ascending and inside the subtree's key range. */
  lemma {:induction false} ChainInBounds(n: Node, lo: Option<Key>, hi: Option<Key>)
    requires Ordered(n, lo, hi)
    ensures AllIn(Chain(n), lo, hi) && EntriesSorted(Chain(n))
    decreases n
  {
    match n
    case Leaf(_) =>
    case Internal(ks, cs) =>
      forall i | 0 <= i < |cs|
        ensures AllIn(Chain(cs[i]), ChildLo(ks, lo, i), ChildHi(ks, hi, i)) && EntriesSorted(Chain(cs[i]))
      {
        ChainInBounds(cs[i], ChildLo(ks, lo, i), ChildHi(ks, hi, i));
      }
      ChildrenChain(ks, cs, lo, hi, |cs|);
      assert cs[..|cs|] == cs;
  }

  /** The chains of the first j children, concatenated, are ascending and lie in [lo, upper bound of child j-1). */
  lemma {:induction false} ChildrenChain(ks: seq<Key>, cs: seq<Node>, lo: Option<Key>, hi: Option<Key>, j: nat)
    requires |cs| == |ks| + 1 && KeysSorted(ks)
    requires forall i :: 0 <= i < |ks| ==> AtLeast(lo, ks[i]) && Below(ks[i], hi)
    requires forall i :: 0 <= i < |cs| ==>
      AllIn(Chain(cs[i]), ChildLo(ks, lo, i), ChildHi(ks, hi, i)) && EntriesSorted(Chain(cs[i]))
    requires 1 <= j <= |cs|
    ensures EntriesSorted(ChainOf(cs[..j])) && AllIn(ChainOf(cs[..j]), lo, ChildHi(ks, hi, j - 1))
    decreases j
  {
    assert cs[..j][..j - 1] == cs[..j - 1];
    var a := ChainOf(cs[..j - 1]);
    var b := Chain(cs[j - 1]);
    assert ChainOf(cs[..j]) == a + b;
    if j == 1 {
      assert a == [];
      assert a + b == b;
    } else {
      ChildrenChain(ks, cs, lo, hi, j - 1);
      var m := ks[j - 2];
      assert ChildHi(ks, hi, j - 2) == Some(m);
      assert ChildLo(ks, lo, j - 1) == Some(m);
      SortedConcat(a, b, m);
      var c := a + b;
      var top := ChildHi(ks, hi, j - 1);
      assert Below(m, top) by {
        if j - 1 < |ks| { assert KeyLess(ks[j - 2], ks[j - 1]); }
      }
      forall i | 0 <= i < |c| ensures AtLeast(lo, c[i].key) && Below(c[i].key, top) {
        if i < |a| {
          assert c[i] == a[i];
          if top.Some? { KeyLessTrans(a[i].key, m, top.value); }
        } else {
          assert c[i] == b[i - |a|];
          if lo.Some? { KeyLeTrans(lo.value, m, b[i - |a|].key); }
        }
      }
    }
  }

  /**
   * The descent step shared by find_leaf, insert_recursive and the tombstoning
   * step: the chain of an ordered internal node is the chains of the children
   * left of the upper-bound child (all keys below k), that child, and the
   * children right of it (all keys above k).
   */
  lemma ChildDecomp(ks: seq<Key>, cs: seq<Node>, lo: Option<Key>, hi: Option<Key>, k: Key)
    requires Ordered(Internal(ks, cs), lo, hi)
    ensures UpperBound(ks, k) < |cs|
    ensures var pos := UpperBound(ks, k);
      ChainOf(cs) == ChainOf(cs[..pos]) + Chain(cs[pos]) + ChainOf(cs[pos + 1..]) &&
      AllLess(ChainOf(cs[..pos]), k) && AllGreater(ChainOf(cs[pos + 1..]), k)
    ensures AtLeast(lo, k) && Below(k, hi) ==>
      AtLeast(ChildLo(ks, lo, UpperBound(ks, k)), k) && Below(k, ChildHi(ks, hi, UpperBound(ks, k)))
  {
    var pos := UpperBound(ks, k);
    ChainOfSplitAt(cs, pos);
    LeftChildrenLess(ks, cs, lo, hi, k);
    RightChildrenGreater(ks, cs, lo, hi, k);
  }

  lemma LeftChildrenLess(ks: seq<Key>, cs: seq<Node>, lo: Option<Key>, hi: Option<Key>, k: Key)
    requires Ordered(Internal(ks, cs), lo, hi)
    ensures AllLess(ChainOf(cs[..UpperBound(ks, k)]), k)
  {
    var pos := UpperBound(ks, k);
    var left := cs[..pos];
    forall j | 0 <= j < |left| ensures AllLess(Chain(left[j]), k) {
      assert left[j] == cs[j];
      ChildBelow(ks, cs, lo, hi, j, k);
    }
    ChainOfAllLess(left, k);
  }

  lemma ChildBelow(ks: seq<Key>, cs: seq<Node>, lo: Option<Key>, hi: Option<Key>, j: nat, k: Key)
    requires Ordered(Internal(ks, cs), lo, hi) && j < |ks| && KeyLe(ks[j], k)
    ensures AllLess(Chain(cs[j]), k)
  {
    ChainInBounds(cs[j], ChildLo(ks, lo, j), ChildHi(ks, hi, j));
    var F := Chain(cs[j]);
    forall i | 0 <= i < |F| ensures KeyLess(F[i].key, k) {
      KeyLessLeTrans(F[i].key, ks[j], k);
    }
  }

  lemma RightChildrenGreater(ks: seq<Key>, cs: seq<Node>, lo: Option<Key>, hi: Option<Key>, k: Key)
    requires Ordered(Internal(ks, cs), lo, hi)
    ensures UpperBound(ks, k) < |cs|
    ensures AllGreater(ChainOf(cs[UpperBound(ks, k) + 1..]), k)
  {
    var pos := UpperBound(ks, k);
    var right := cs[pos + 1..];
    forall j | 0 <= j < |right| ensures AllGreater(Chain(right[j]), k) {
      var jj := pos + 1 + j;
      assert right[j] == cs[jj];
      assert KeyLess(k, ks[jj - 1]) by {
        if jj - 1 > pos { KeyLessTrans(k, ks[pos], ks[jj - 1]); }
      }
      ChildAbove(ks, cs, lo, hi, jj, k);
    }
    ChainOfAllGreater(right, k);
  }

  lemma ChildAbove(ks: seq<Key>, cs: seq<Node>, lo: Option<Key>, hi: Option<Key>, j: nat, k: Key)
    requires Ordered(Internal(ks, cs), lo, hi) && 0 < j < |cs| && KeyLess(k, ks[j - 1])
    ensures AllGreater(Chain(cs[j]), k)
  {
    ChainInBounds(cs[j], ChildLo(ks, lo, j), ChildHi(ks, hi, j));
    var F := Chain(cs[j]);
    forall i | 0 <= i < |F| ensures KeyLess(k, F[i].key) {
      KeyLessLeTrans(k, ks[j - 1], F[i].key);
    }
  }

  // ===== the live map =====

  lemma {:induction false} LiveMapAppend(a: seq<Entry>, b: seq<Entry>)
    ensures LiveMap(a + b) == LiveMap(a) + LiveMap(b)
    decreases |b|
  {
    if |b| == 0 {
      Seqs.AppendNothing(a);
    } else {
      Seqs.WithoutLast(a, b);
      LiveMapAppend(a, b[..|b| - 1]);
    }
  }

  lemma {:induction false} LivePairsAppend(a: seq<Entry>, b: seq<Entry>)
    ensures LivePairs(a + b) == LivePairs(a) + LivePairs(b)
    decreases |b|
  {
    if |b| == 0 {
      Seqs.AppendNothing(a);
    } else {
      Seqs.WithoutLast(a, b);
      LivePairsAppend(a, b[..|b| - 1]);
    }
  }

  /** A key that no live entry carries is not in the live map. */
  lemma {:induction false} LiveMapAbsent(F: seq<Entry>, k: Key)
    requires forall i :: 0 <= i < |F| && F[i].key == k ==> F[i].deleted
    ensures k !in LiveMap(F)
    decreases |F|
  {
    if |F| > 0 {
      LiveMapAbsent(F[..|F| - 1], k);
    }
  }

  /** In a strictly ascending chain a live entry's value is the map's value for its key. */
  lemma {:induction false} LiveMapAt(F: seq<Entry>, j: nat)
    requires EntriesSorted(F) && j < |F| && !F[j].deleted
    ensures F[j].key in LiveMap(F) && LiveMap(F)[F[j].key] == F[j].value
    decreases |F|
  {
    var last := |F| - 1;
    if j < last {
      assert EntriesSorted(F[..last]);
      LiveMapAt(F[..last], j);
      KeyTotal(F[j].key, F[last].key);
    }
  }

  /** Every key of the live map comes from a live entry carrying it. */
  lemma {:induction false} LiveMapHas(F: seq<Entry>, k: Key) returns (j: nat)
    requires k in LiveMap(F)
    ensures j < |F| && F[j].key == k && !F[j].deleted
    decreases |F|
  {
    var last := |F| - 1;
    if !F[last].deleted && F[last].key == k {
      j := last;
    } else {
      j := LiveMapHas(F[..last], k);
    }
  }

  lemma {:induction false} MarkKeyLive(F: seq<Entry>, k: Key)
    ensures LiveMap(MarkKey(F, k)) == LiveMap(F) - {k}
    decreases |F|
  {
    if |F| > 0 {
      var last := |F| - 1;
      assert MarkKey(F, k)[..last] == MarkKey(F[..last], k);
      MarkKeyLive(F[..last], k);
    }
  }

  lemma MarkKeyAppend(a: seq<Entry>, b: seq<Entry>, k: Key)
    ensures MarkKey(a + b, k) == MarkKey(a, k) + MarkKey(b, k)
  {
  }

  lemma MarkKeyAbsent(F: seq<Entry>, k: Key)
    requires forall i :: 0 <= i < |F| ==> F[i].key != k
    ensures MarkKey(F, k) == F
  {
  }

  /** In a strictly ascending chain the live map has one key per live entry. */
  lemma {:induction false} LiveMapCard(F: seq<Entry>)
    requires EntriesSorted(F)
    ensures |LiveMap(F)| == |LivePairs(F)|
    decreases |F|
  {
    if |F| > 0 {
      var last := |F| - 1;
      assert EntriesSorted(F[..last]);
      LiveMapCard(F[..last]);
      if !F[last].deleted {
        forall i | 0 <= i < last ensures F[..last][i].key != F[last].key {
          KeyTotal(F[i].key, F[last].key);
        }
        LiveMapAbsent(F[..last], F[last].key);
      }
    }
  }

  // ===== the reference insert =====

  /** On a sorted chain, InsertSorted replaces the lower-bound slot when its key matches, and otherwise inserts there. */
  lemma {:induction false} InsertSortedAt(F: seq<Entry>, e: Entry)
    requires EntriesSorted(F)
    ensures var pos := LowerBound(F, e.key);
      InsertSorted(F, e) ==
        if pos < |F| && F[pos].key == e.key then F[pos := e] else F[..pos] + [e] + F[pos..]
    decreases |F|
  {
    if |F| > 0 && KeyLess(F[0].key, e.key) {
      assert EntriesSorted(F[1..]);
      InsertSortedAt(F[1..], e);
      InsertSortedAtStep(F, e);
    } else if |F| > 0 && F[0].key == e.key {
      assert F[0 := e] == [e] + F[1..];
    } else {
      assert F[..0] == [] && F[0..] == F;
    }
  }

  lemma InsertSortedAtStep(F: seq<Entry>, e: Entry)
    requires |F| > 0 && KeyLess(F[0].key, e.key)
    requires var t, p := F[1..], LowerBound(F[1..], e.key);
      InsertSorted(t, e) == if p < |t| && t[p].key == e.key then t[p := e] else t[..p] + [e] + t[p..]
    ensures var pos := LowerBound(F, e.key);
      InsertSorted(F, e) ==
        if pos < |F| && F[pos].key == e.key then F[pos := e] else F[..pos] + [e] + F[pos..]
  {
    var t := F[1..];
    var p := LowerBound(t, e.key);
    assert LowerBound(F, e.key) == 1 + p;
    assert InsertSorted(F, e) == [F[0]] + InsertSorted(t, e);
    Seqs.Cons(F);
    if p < |t| && t[p].key == e.key {
      ReplaceUnderCons(F[0], t, p, e);
    } else {
      InsertUnderCons(F[0], t, p, e);
    }
  }

  lemma ReplaceUnderCons(x: Entry, t: seq<Entry>, p: nat, e: Entry)
    requires p < |t|
    ensures [x] + t[p := e] == ([x] + t)[p + 1 := e]
  {
  }

  lemma InsertUnderCons(x: Entry, t: seq<Entry>, p: nat, e: Entry)
    requires p <= |t|
    ensures [x] + (t[..p] + [e] + t[p..]) == ([x] + t)[..p + 1] + [e] + ([x] + t)[p + 1..]
  {
    assert ([x] + t)[..p + 1] == [x] + t[..p];
    assert ([x] + t)[p + 1..] == t[p..];
  }

  lemma {:induction false} InsertSortedAfter(a: seq<Entry>, g: seq<Entry>, e: Entry)
    requires AllLess(a, e.key)
    ensures InsertSorted(a + g, e) == a + InsertSorted(g, e)
    decreases |a|
  {
    if |a| > 0 {
      assert (a + g)[0] == a[0];
      assert (a + g)[1..] == a[1..] + g;
      InsertSortedAfter(a[1..], g, e);
      assert a == [a[0]] + a[1..];
    } else {
      assert a + g == g;
    }
  }

  lemma {:induction false} InsertSortedBefore(g: seq<Entry>, b: seq<Entry>, e: Entry)
    requires AllGreater(b, e.key)
    ensures InsertSorted(g + b, e) == InsertSorted(g, e) + b
    decreases |g|
  {
    if |g| > 0 {
      assert (g + b)[0] == g[0];
      assert (g + b)[1..] == g[1..] + b;
      InsertSortedBefore(g[1..], b, e);
    } else {
      assert g + b == b;
      if |b| > 0 {
        KeyTotal(e.key, b[0].key);
      }
    }
  }

  /** Every entry of InsertSorted(F, e) is e or an entry of F. */
  lemma {:induction false} InsertSortedMembers(F: seq<Entry>, e: Entry)
    ensures forall i :: 0 <= i < |InsertSorted(F, e)| ==> InsertSorted(F, e)[i] == e || InsertSorted(F, e)[i] in F
    decreases |F|
  {
    if |F| > 0 && KeyLess(F[0].key, e.key) {
      InsertSortedMembers(F[1..], e);
      var r := InsertSorted(F, e);
      forall i | 0 <= i < |r| ensures r[i] == e || r[i] in F {
        if i > 0 {
          assert r[i] == InsertSorted(F[1..], e)[i - 1];
        }
      }
    }
  }

  /** InsertSorted keeps a chain strictly ascending and inside any range that contains the new key. */
  lemma {:induction false} InsertSortedOrdered(F: seq<Entry>, e: Entry, lo: Option<Key>, hi: Option<Key>)
    requires EntriesSorted(F) && AllIn(F, lo, hi) && AtLeast(lo, e.key) && Below(e.key, hi)
    ensures EntriesSorted(InsertSorted(F, e)) && AllIn(InsertSorted(F, e), lo, hi)
    decreases |F|
  {
    InsertSortedSorted(F, e);
    InsertSortedMembers(F, e);
    var r := InsertSorted(F, e);
    forall i | 0 <= i < |r| ensures AtLeast(lo, r[i].key) && Below(r[i].key, hi) {
      if r[i] != e {
        var j :| 0 <= j < |F| && F[j] == r[i];
      }
    }
  }

  lemma {:induction false} InsertSortedSorted(F: seq<Entry>, e: Entry)
    requires EntriesSorted(F)
    ensures EntriesSorted(InsertSorted(F, e))
    decreases |F|
  {
    if |F| > 0 && KeyLess(F[0].key, e.key) {
      var t := InsertSorted(F[1..], e);
      assert EntriesSorted(F[1..]);
      InsertSortedSorted(F[1..], e);
      InsertSortedMembers(F[1..], e);
      forall i | 0 <= i < |t| ensures KeyLess(F[0].key, t[i].key) {
        if t[i] != e {
          var j :| 0 <= j < |F[1..]| && F[1..][j] == t[i];
          assert F[1 + j] == t[i];
        }
      }
      ConsSorted(F[0], t);
    } else if |F| > 0 && F[0].key == e.key {
      forall i | 0 <= i < |F[1..]| ensures KeyLess(e.key, F[1..][i].key) {
        assert F[1..][i] == F[i + 1];
      }
      assert EntriesSorted(F[1..]);
      ConsSorted(e, F[1..]);
    } else if |F| > 0 {
      KeyNotLess(F[0].key, e.key);
      assert KeyLess(e.key, F[0].key) by { KeyCmpZero(F[0].key, e.key); KeyCmpAntisym(F[0].key, e.key); }
      forall i | 0 <= i < |F| ensures KeyLess(e.key, F[i].key) {
        if i > 0 { KeyLessTrans(e.key, F[0].key, F[i].key); }
      }
      ConsSorted(e, F);
    }
  }

  lemma ConsSorted(x: Entry, t: seq<Entry>)
    requires EntriesSorted(t) && forall i :: 0 <= i < |t| ==> KeyLess(x.key, t[i].key)
    ensures EntriesSorted([x] + t)
  {
    var r := [x] + t;
    forall i, j | 0 <= i < j < |r| ensures KeyLess(r[i].key, r[j].key) {
      assert r[j] == t[j - 1];
      if i > 0 { assert r[i] == t[i - 1]; }
    }
  }

  /** InsertSorted of a live entry updates the live map at its key and nothing else. */
  lemma InsertSortedLive(F: seq<Entry>, e: Entry)
    requires EntriesSorted(F) && !e.deleted
    ensures LiveMap(InsertSorted(F, e)) == LiveMap(F)[e.key := e.value]
  {
    InsertSortedAt(F, e);
    var pos := LowerBound(F, e.key);
    if pos < |F| && F[pos].key == e.key {
      ReplaceLive(F, pos, e);
    } else {
      InsertLive(F, pos, e);
    }
  }

  lemma LiveMapOne(e: Entry)
    ensures LiveMap([e]) == if e.deleted then map[] else map[e.key := e.value]
  {
    Seqs.TakeOne(e);
  }

  lemma ReplaceLive(F: seq<Entry>, pos: nat, e: Entry)
    requires EntriesSorted(F) && !e.deleted && pos < |F| && F[pos].key == e.key
    ensures LiveMap(F[pos := e]) == LiveMap(F)[e.key := e.value]
  {
    var k := e.key;
    Seqs.Split3(F, pos);
    Seqs.Update(F, pos, e);
    forall i | pos + 1 <= i < |F| ensures F[i].key != k {
      KeyTotal(F[pos].key, F[i].key);
    }
    AfterAbsent(F, pos + 1, k);
    LiveMapSplice(F[..pos], e, F[pos + 1..]);
    LiveMapOverwrite(F[..pos], F[pos], F[pos + 1..], e.value);
  }

  /** Whatever entry of key k sits between two parts, binding k afterwards hides it. */
  lemma LiveMapOverwrite(pre: seq<Entry>, x: Entry, post: seq<Entry>, v: Value)
    requires x.key !in LiveMap(post)
    ensures LiveMap(pre + [x] + post)[x.key := v] == LiveMap(pre + post)[x.key := v]
  {
    LiveMapAppend(pre, [x]);
    LiveMapOne(x);
    LiveMapAppend(pre + [x], post);
    LiveMapAppend(pre, post);
    Seqs.UpdateHides(LiveMap(pre), LiveMap([x]), LiveMap(post), x.key, v);
  }

  lemma InsertLive(F: seq<Entry>, pos: nat, e: Entry)
    requires EntriesSorted(F) && !e.deleted && pos == LowerBound(F, e.key)
    requires !(pos < |F| && F[pos].key == e.key)
    ensures LiveMap(F[..pos] + [e] + F[pos..]) == LiveMap(F)[e.key := e.value]
  {
    KeyNotFromLowerBound(F, e.key);
    AfterAbsent(F, pos, e.key);
    assert F == F[..pos] + F[pos..];
    LiveMapSplice(F[..pos], e, F[pos..]);
  }

  /** Splicing a live entry in front of a part that lacks its key adds exactly that binding. */
  lemma LiveMapSplice(pre: seq<Entry>, e: Entry, post: seq<Entry>)
    requires !e.deleted && e.key !in LiveMap(post)
    ensures LiveMap(pre + [e] + post) == LiveMap(pre + post)[e.key := e.value]
  {
    LiveMapAppend(pre, [e]);
    LiveMapOne(e);
    LiveMapAppend(pre + [e], post);
    LiveMapAppend(pre, post);
    UpdateUnion(LiveMap(pre), LiveMap(post), e.key, e.value);
  }

  lemma AfterAbsent(F: seq<Entry>, pos: nat, k: Key)
    requires pos <= |F|
    requires forall i :: pos <= i < |F| ==> F[i].key != k
    ensures k !in LiveMap(F[pos..])
  {
    assert forall i :: 0 <= i < |F[pos..]| ==> F[pos..][i] == F[pos + i];
    LiveMapAbsent(F[pos..], k);
  }

  lemma UpdateUnion<K, V>(m1: map<K, V>, m2: map<K, V>, k: K, v: V)
    requires k !in m2
    ensures m1[k := v] + m2 == (m1 + m2)[k := v]
  {
  }

  /** When the lower-bound slot does not hold k, no slot from there on does. */
  lemma KeyNotFromLowerBound(F: seq<Entry>, k: Key)
    requires EntriesSorted(F)
    requires !(LowerBound(F, k) < |F| && F[LowerBound(F, k)].key == k)
    ensures forall i :: LowerBound(F, k) <= i < |F| ==> F[i].key != k
  {
    var pos := LowerBound(F, k);
    forall i | pos <= i < |F| ensures F[i].key != k {
      if i > pos {
        KeyNotLess(F[pos].key, k);
        KeyLeLessTrans(k, F[pos].key, F[i].key);
        KeyTotal(k, F[i].key);
      }
    }
  }
}
