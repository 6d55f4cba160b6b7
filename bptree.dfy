/**
 * The B+tree of b+tree/kvs.c as a value.  A leaf holds its entries (the C
 * leaf's parallel keys/klens/entries arrays), an internal node its separator
 * keys and children.  `Chain(n)` is the sequence of entries met by walking
 * the leaves left to right, which is what the C next/prev links thread
 * together; `Leaves(n)` is that walk one leaf at a time.
 *
 * Invariants of a tree at rest:
 *   - Ordered: keys strictly ascending in every node; every key under child i
 *     of an internal node lies in [keys[i-1], keys[i]) (copy-up puts a leaf's
 *     first key in its parent, so the lower bound is inclusive);
 *   - Balanced: all leaves at the same depth, the tree height;
 *   - Bounded: at most ORDER-2 keys per node (a node splits on reaching
 *     ORDER-1, the array capacity), and at least MIN_KEYS in every non-root
 *     node, because keys are never removed (deletion only sets a tombstone).
 */
module BPlusTree {
  import opened Keys
  import opened Wrappers

  const ORDER: nat := 64
  const MIN_KEYS: nat := (ORDER - 1) / 2

  /** An Entry: key and value bytes and the tombstone flag. */
  datatype Entry = Entry(key: Key, value: Value, deleted: bool)

  datatype Node =
    | Leaf(entries: seq<Entry>)
    | Internal(keys: seq<Key>, children: seq<Node>)

  /**
   * What insert_recursive leaves behind for one subtree: the subtree still fits
   * (Fit), or it was split into `left` and `right` and `up` must be inserted in
   * the parent (Split).  `added` is insert_recursive's return value and
   * `created` counts the bpnode_new calls made below this node.
   */
  datatype Ins =
    | Fit(node: Node, added: bool, created: nat)
    | Split(left: Node, up: Key, right: Node, added: bool, created: nat)

  // ===== order predicates =====

  predicate EntriesSorted(F: seq<Entry>)
  {
    forall i, j :: 0 <= i < j < |F| ==> KeyLess(F[i].key, F[j].key)
  }

  predicate KeysSorted(ks: seq<Key>)
  {
    forall i, j :: 0 <= i < j < |ks| ==> KeyLess(ks[i], ks[j])
  }

  predicate AtLeast(lo: Option<Key>, k: Key) { lo.None? || KeyLe(lo.value, k) }

  predicate Above(lo: Option<Key>, k: Key) { lo.None? || KeyLess(lo.value, k) }

  predicate Below(k: Key, hi: Option<Key>) { hi.None? || KeyLess(k, hi.value) }

  predicate AllIn(F: seq<Entry>, lo: Option<Key>, hi: Option<Key>)
  {
    forall i :: 0 <= i < |F| ==> AtLeast(lo, F[i].key) && Below(F[i].key, hi)
  }

  predicate AllLess(F: seq<Entry>, k: Key) { forall i :: 0 <= i < |F| ==> KeyLess(F[i].key, k) }

  predicate AllGreater(F: seq<Entry>, k: Key) { forall i :: 0 <= i < |F| ==> KeyLess(k, F[i].key) }

  /** The key range of child i: [keys[i-1], keys[i]), with the parent's bounds at the ends. */
  function ChildLo(ks: seq<Key>, lo: Option<Key>, i: nat): Option<Key>
    requires i <= |ks|
  {
    if i == 0 then lo else Some(ks[i - 1])
  }

  function ChildHi(ks: seq<Key>, hi: Option<Key>, i: nat): Option<Key>
    requires i <= |ks|
  {
    if i == |ks| then hi else Some(ks[i])
  }

  // ===== structural invariants =====

  ghost predicate Shaped(n: Node)
    decreases n
  {
    match n
    case Leaf(_) => true
    case Internal(ks, cs) => |cs| == |ks| + 1 && forall i :: 0 <= i < |cs| ==> Shaped(cs[i])
  }

  ghost predicate Ordered(n: Node, lo: Option<Key>, hi: Option<Key>)
    decreases n
  {
    match n
    case Leaf(es) => EntriesSorted(es) && AllIn(es, lo, hi)
    case Internal(ks, cs) =>
      |cs| == |ks| + 1 && KeysSorted(ks) &&
      (forall i :: 0 <= i < |ks| ==> AtLeast(lo, ks[i]) && Below(ks[i], hi)) &&
      (forall i :: 0 <= i < |cs| ==> Ordered(cs[i], ChildLo(ks, lo, i), ChildHi(ks, hi, i)))
  }

  ghost predicate Balanced(n: Node, h: nat)
    decreases n
  {
    match n
    case Leaf(_) => h == 1
    case Internal(_, cs) => h > 1 && forall i :: 0 <= i < |cs| ==> Balanced(cs[i], h - 1)
  }

  ghost predicate Bounded(n: Node, isRoot: bool)
    decreases n
  {
    match n
    case Leaf(es) => |es| <= ORDER - 2 && (isRoot || |es| >= MIN_KEYS)
    case Internal(ks, cs) =>
      |ks| <= ORDER - 2 && |ks| >= (if isRoot then 1 else MIN_KEYS) &&
      forall i :: 0 <= i < |cs| ==> Bounded(cs[i], false)
  }

  /** The invariant of db->root with db->height. */
  ghost predicate TreeInv(root: Node, height: nat)
  {
    Shaped(root) && Ordered(root, None, None) && Balanced(root, height) && Bounded(root, true)
  }

  // ===== the leaf chain =====

  function Chain(n: Node): seq<Entry>
    decreases n
  {
    match n
    case Leaf(es) => es
    case Internal(_, cs) => ChainOf(cs)
  }

  function ChainOf(cs: seq<Node>): seq<Entry>
    decreases cs
  {
    if |cs| == 0 then [] else ChainOf(cs[..|cs| - 1]) + Chain(cs[|cs| - 1])
  }

  /** The leaves left to right, as the next links thread them: db->first_leaf is the first. */
  function Leaves(n: Node): seq<seq<Entry>>
    decreases n
  {
    match n
    case Leaf(es) => [es]
    case Internal(_, cs) => LeavesOf(cs)
  }

  function LeavesOf(cs: seq<Node>): seq<seq<Entry>>
    decreases cs
  {
    if |cs| == 0 then [] else LeavesOf(cs[..|cs| - 1]) + Leaves(cs[|cs| - 1])
  }

  /** The concatenation of a sequence of leaves. */
  function Flat(L: seq<seq<Entry>>): seq<Entry>
  {
    if |L| == 0 then [] else Flat(L[..|L| - 1]) + L[|L| - 1]
  }

  /** find_leaf: the position in the leaf chain of the leaf reached by descending along upper bounds. */
  function LeafIndex(n: Node, k: Key): nat
    requires Shaped(n)
    decreases n
  {
    match n
    case Leaf(_) => 0
    case Internal(ks, cs) =>
      var pos := UpperBound(ks, k);
      |LeavesOf(cs[..pos])| + LeafIndex(cs[pos], k)
  }

  function InsChain(r: Ins): seq<Entry>
  {
    match r
    case Fit(n, _, _) => Chain(n)
    case Split(l, _, rt, _, _) => Chain(l) + Chain(rt)
  }

  function NodeCount(n: Node): nat
    decreases n
  {
    match n
    case Leaf(_) => 1
    case Internal(_, cs) => 1 + NodeCountOf(cs)
  }

  function NodeCountOf(cs: seq<Node>): nat
    decreases cs
  {
    if |cs| == 0 then 0 else NodeCountOf(cs[..|cs| - 1]) + NodeCount(cs[|cs| - 1])
  }

  function InsNodeCount(r: Ins): nat
  {
    match r
    case Fit(n, _, _) => NodeCount(n)
    case Split(l, _, rt, _, _) => NodeCount(l) + NodeCount(rt)
  }

  // ===== searches =====

  /** The first slot whose key is not below k: leaf_find_pos's answer. */
  function LowerBound(es: seq<Entry>, k: Key): (r: nat)
    ensures r <= |es|
    ensures forall i :: 0 <= i < r ==> KeyLess(es[i].key, k)
    ensures r < |es| ==> !KeyLess(es[r].key, k)
    decreases |es|
  {
    if |es| == 0 || !KeyLess(es[0].key, k) then 0 else 1 + LowerBound(es[1..], k)
  }

  /** The first separator above k: internal_find_pos's answer, the child to descend into. */
  function UpperBound(ks: seq<Key>, k: Key): (r: nat)
    ensures r <= |ks|
    ensures forall i :: 0 <= i < r ==> KeyLe(ks[i], k)
    ensures r < |ks| ==> KeyLess(k, ks[r])
    decreases |ks|
  {
    if |ks| == 0 || KeyLess(k, ks[0]) then 0
    else
      KeyNotLess(k, ks[0]);
      1 + UpperBound(ks[1..], k)
  }

  /** leaf_find_pos: binary search for the lower bound. */
  method LeafFindPos(es: seq<Entry>, k: Key) returns (pos: nat)
    requires EntriesSorted(es)
    ensures pos == LowerBound(es, k)
  {
    var lo, hi := 0, |es|;
    while lo < hi
      invariant 0 <= lo <= hi <= |es|
      invariant forall i :: 0 <= i < lo ==> KeyLess(es[i].key, k)
      invariant forall i :: hi <= i < |es| ==> !KeyLess(es[i].key, k)
      decreases hi - lo
    {
      var mid := (lo + hi) / 2;
      if KeyCmp(es[mid].key, k) < 0 {
        forall i | 0 <= i <= mid ensures KeyLess(es[i].key, k) {
          if i < mid { KeyLessTrans(es[i].key, es[mid].key, k); }
        }
        lo := mid + 1;
      } else {
        forall i | mid <= i < |es| ensures !KeyLess(es[i].key, k) {
          KeyNotLess(es[mid].key, k);
          if i > mid {
            KeyLeLessTrans(k, es[mid].key, es[i].key);
            KeyTotal(k, es[i].key);
          }
        }
        hi := mid;
      }
    }
    pos := lo;
    LowerBoundUnique(es, k, pos);
  }

  lemma LowerBoundUnique(es: seq<Entry>, k: Key, p: nat)
    requires p <= |es|
    requires forall i :: 0 <= i < p ==> KeyLess(es[i].key, k)
    requires forall i :: p <= i < |es| ==> !KeyLess(es[i].key, k)
    ensures p == LowerBound(es, k)
  {
    var r := LowerBound(es, k);
    assert r < |es| ==> !KeyLess(es[r].key, k);
    assert p < |es| ==> !KeyLess(es[p].key, k);
  }

  /** internal_find_pos: binary search for the upper bound. */
  method InternalFindPos(ks: seq<Key>, k: Key) returns (pos: nat)
    requires KeysSorted(ks)
    ensures pos == UpperBound(ks, k)
  {
    var lo, hi := 0, |ks|;
    while lo < hi
      invariant 0 <= lo <= hi <= |ks|
      invariant forall i :: 0 <= i < lo ==> KeyLe(ks[i], k)
      invariant forall i :: hi <= i < |ks| ==> KeyLess(k, ks[i])
      decreases hi - lo
    {
      var mid := (lo + hi) / 2;
      if KeyCmp(ks[mid], k) <= 0 {
        forall i | 0 <= i <= mid ensures KeyLe(ks[i], k) {
          if i < mid { KeyLessLeTrans(ks[i], ks[mid], k); }
        }
        lo := mid + 1;
      } else {
        KeyNotLess(ks[mid], k);
        KeyCmpAntisym(ks[mid], k);
        forall i | mid <= i < |ks| ensures KeyLess(k, ks[i]) {
          if i > mid { KeyLessTrans(k, ks[mid], ks[i]); }
        }
        hi := mid;
      }
    }
    pos := lo;
    UpperBoundUnique(ks, k, pos);
  }

  lemma UpperBoundUnique(ks: seq<Key>, k: Key, p: nat)
    requires p <= |ks|
    requires forall i :: 0 <= i < p ==> KeyLe(ks[i], k)
    requires forall i :: p <= i < |ks| ==> KeyLess(k, ks[i])
    ensures p == UpperBound(ks, k)
  {
    var r := UpperBound(ks, k);
    if r < p {
      KeyNotLess(k, ks[r]);
    } else if p < r {
      KeyNotLess(k, ks[p]);
    }
  }

  // ===== the reference insert on a sorted chain =====

  /**
   * Inserting e into a key-sorted entry sequence: an entry with the same key
   * is replaced, otherwise e goes in before the first larger key.
   */
  function InsertSorted(F: seq<Entry>, e: Entry): seq<Entry>
    decreases |F|
  {
    if |F| == 0 then [e]
    else if KeyLess(F[0].key, e.key) then [F[0]] + InsertSorted(F[1..], e)
    else if F[0].key == e.key then [e] + F[1..]
    else [e] + F
  }

  /** The live key/value map of an entry sequence; a later live entry overrides an earlier one. */
  function LiveMap(F: seq<Entry>): map<Key, Value>
    decreases |F|
  {
    if |F| == 0 then map[]
    else
      var m := LiveMap(F[..|F| - 1]);
      var e := F[|F| - 1];
      if e.deleted then m else m[e.key := e.value]
  }

  /** The (key, value) pairs of the live entries, in sequence order. */
  function LivePairs(F: seq<Entry>): seq<(Key, Value)>
    decreases |F|
  {
    if |F| == 0 then []
    else
      var p := LivePairs(F[..|F| - 1]);
      var e := F[|F| - 1];
      if e.deleted then p else p + [(e.key, e.value)]
  }

  /** The entry sequence with every entry of key k tombstoned. */
  function MarkKey(F: seq<Entry>, k: Key): (r: seq<Entry>)
    ensures |r| == |F|
    ensures forall i :: 0 <= i < |F| ==>
      r[i].key == F[i].key && r[i].value == F[i].value && (r[i].deleted <==> F[i].deleted || F[i].key == k)
  {
    seq(|F|, i requires 0 <= i < |F| => if F[i].key == k then F[i].(deleted := true) else F[i])
  }

  // ===== insert_recursive / split_leaf / split_internal =====

  /** The leaf case of insert_recursive, including split_leaf. */
  function InsertLeaf(es: seq<Entry>, e: Entry): Ins
  {
    var pos := LowerBound(es, e.key);
    if pos < |es| && KeyCmp(es[pos].key, e.key) == 0 then
      if !es[pos].deleted then Fit(Leaf(es[pos := es[pos].(value := e.value)]), false, 0)
      else Fit(Leaf(es[pos := e]), true, 0)
    else
      var grown := es[..pos] + [e] + es[pos..];
      if |grown| >= ORDER - 1 then
        var mid := |grown| / 2;
        Split(Leaf(grown[..mid]), grown[mid].key, Leaf(grown[mid..]), true, 1)
      else Fit(Leaf(grown), true, 0)
  }

  /** insert_recursive: descend by the upper bound, then let this node absorb what the child left behind. */
  function InsertNode(n: Node, e: Entry): Ins
    requires Shaped(n)
    decreases n
  {
    match n
    case Leaf(es) => InsertLeaf(es, e)
    case Internal(ks, cs) =>
      var pos := UpperBound(ks, e.key);
      Absorb(ks, cs, pos, InsertNode(cs[pos], e))
  }

  /** What a node does with its child's insert result: take it in, then split if full. */
  function Absorb(ks: seq<Key>, cs: seq<Node>, pos: nat, sub: Ins): Ins
    requires |cs| == |ks| + 1 && pos < |cs|
  {
    var w := Widen(ks, cs, pos, sub);
    Fill(w.0, w.1, sub.added, sub.created)
  }

  /**
   * The parent side of split_leaf / split_internal: a child that still fits
   * replaces the old child; a split child's separator goes in at key slot pos
   * and its two halves take child slots pos and pos + 1.
   */
  function Widen(ks: seq<Key>, cs: seq<Node>, pos: nat, sub: Ins): (r: (seq<Key>, seq<Node>))
    requires |cs| == |ks| + 1 && pos < |cs|
    ensures |r.1| == |r.0| + 1
    ensures |r.0| == if sub.Fit? then |ks| else |ks| + 1
  {
    if sub.Fit? then (ks, cs[pos := sub.node])
    else (ks[..pos] + [sub.up] + ks[pos..], cs[..pos] + [sub.left, sub.right] + cs[pos + 1..])
  }

  /**
   * The split check of insert_recursive with split_internal: a node holding
   * ORDER-1 keys keeps the keys before the middle one, the middle key moves
   * up, and a new node takes the keys after it; one more node is allocated.
   */
  function Fill(ks: seq<Key>, cs: seq<Node>, added: bool, created: nat): Ins
    requires |cs| == |ks| + 1
  {
    if |ks| >= ORDER - 1 then
      var mid := |ks| / 2;
      Split(Internal(ks[..mid], cs[..mid + 1]), ks[mid], Internal(ks[mid + 1..], cs[mid + 1..]), added, created + 1)
    else Fit(Internal(ks, cs), added, created)
  }

  /** The root after an insert: a split root is replaced by a new root with one key and two children. */
  function RootAfter(r: Ins): Node
  {
    match r
    case Fit(n, _, _) => n
    case Split(l, up, rt, _, _) => Internal([up], [l, rt])
  }

  /** The tombstoning step of kvs_delete: descend as find_leaf does and flag the matching slot. */
  function Tombstone(n: Node, k: Key): Node
    requires Shaped(n)
    decreases n
  {
    match n
    case Leaf(es) =>
      var pos := LowerBound(es, k);
      if pos < |es| && KeyCmp(es[pos].key, k) == 0 then Leaf(es[pos := es[pos].(deleted := true)]) else n
    case Internal(ks, cs) =>
      var pos := UpperBound(ks, k);
      Internal(ks, cs[pos := Tombstone(cs[pos], k)])
  }
}
