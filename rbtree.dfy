/**
 * The sentinel-based red-black tree that hash_rbtree/kvs.c (lines 137-244),
 * kvs_hybrid.c and kvs_rbtree.c each carry a copy of: insertion by descent
 * from the root, the textbook insert fixup with its two rotations, search and
 * in-order traversal.
 *
 * A tree is a value; the shared black sentinel t->nil is Nil.  The parent
 * pointers the fixup climbs along are the path of frames from the root down
 * to the current node (a zipper): each frame records the node passed, which
 * child was taken and the other child.  A rotation is a function on the
 * subtree it rearranges; colours stay with their nodes, as in the C code.
 */
module RedBlack {
  import opened Keys
  import opened Wrappers
  import opened BPlusTree
  import opened BPlusTreeProofs
  import opened BPlusTreeInsert
  import Seqs

  datatype Color = Red | Black

  datatype Tree = Nil | Node(color: Color, left: Tree, entry: Entry, right: Tree)

  datatype Dir = Left | Right

  /** One step of a root-to-node path: the node passed, the child taken and the other child. */
  datatype Frame = Frame(dir: Dir, color: Color, entry: Entry, other: Tree)

  // ===== contents and shape =====

  /** The entries in key order: what rbtree_inorder visits. */
  function Inorder(t: Tree): seq<Entry>
  {
    match t
    case Nil => []
    case Node(_, l, e, r) => Inorder(l) + [e] + Inorder(r)
  }

  /** The sentinel counts as black. */
  predicate IsBlack(t: Tree) { t.Nil? || t.color == Black }

  function Weight(c: Color): nat { if c == Black then 1 else 0 }

  /** Black nodes on the leftmost path, the sentinel not counted. */
  function BlackHeight(t: Tree): nat
  {
    match t
    case Nil => 0
    case Node(c, l, _, _) => BlackHeight(l) + Weight(c)
  }

  /** Every path from a node down to the sentinel meets the same number of black nodes. */
  predicate BlackBalanced(t: Tree)
  {
    match t
    case Nil => true
    case Node(_, l, _, r) => BlackBalanced(l) && BlackBalanced(r) && BlackHeight(l) == BlackHeight(r)
  }

  /** A red node has black children. */
  predicate RedOk(t: Tree)
  {
    match t
    case Nil => true
    case Node(c, l, _, r) => RedOk(l) && RedOk(r) && (c == Red ==> IsBlack(l) && IsBlack(r))
  }

  /** The red-black properties: black root, no red node under a red one, equal black heights. */
  predicate RedBlackShape(t: Tree)
  {
    IsBlack(t) && RedOk(t) && BlackBalanced(t)
  }

  /** The invariant every copy of the tree keeps: red-black and strictly ascending in-order keys. */
  predicate IsRBTree(t: Tree)
  {
    RedBlackShape(t) && EntriesSorted(Inorder(t))
  }

  function Height(t: Tree): nat
  {
    match t
    case Nil => 0
    case Node(_, l, _, r) => 1 + (if Height(l) < Height(r) then Height(r) else Height(l))
  }

  /** t->root->color = BLACK. */
  function Blacken(t: Tree): Tree
  {
    if t.Nil? then t else t.(color := Black)
  }

  // ===== rotations =====

  /** rbtree_left_rotate at x: its right child y takes its place and x becomes y's left child. */
  function RotateLeft(x: Tree): (r: Tree)
    requires x.Node? && x.right.Node?
    ensures r.Node? && Inorder(r) == Inorder(x)
  {
    var y := x.right;
    var r := Node(y.color, Node(x.color, x.left, x.entry, y.left), y.entry, y.right);
    assert Inorder(r) == Inorder(x) by {
      Seqs.Associative(Inorder(x.left) + [x.entry], Inorder(y.left) + [y.entry], Inorder(y.right));
    }
    r
  }

  /** rbtree_right_rotate at x: its left child y takes its place and x becomes y's right child. */
  function RotateRight(x: Tree): (r: Tree)
    requires x.Node? && x.left.Node?
    ensures r.Node? && Inorder(r) == Inorder(x)
  {
    var y := x.left;
    var r := Node(y.color, y.left, y.entry, Node(x.color, y.right, x.entry, x.right));
    assert Inorder(r) == Inorder(x) by {
      Seqs.Associative(Inorder(y.left) + [y.entry], Inorder(y.right) + [x.entry], Inorder(x.right));
    }
    r
  }

  // ===== the path to a node =====

  /** The subtree rooted at the frame's node, with sub in the child slot the frame took. */
  function Attach(f: Frame, sub: Tree): Tree
  {
    if f.dir == Left then Node(f.color, sub, f.entry, f.other) else Node(f.color, f.other, f.entry, sub)
  }

  /** The whole tree, rebuilt from the path (root first) and the subtree at its end. */
  function Plug(p: seq<Frame>, sub: Tree): Tree
    decreases |p|
  {
    if |p| == 0 then sub else Plug(p[..|p| - 1], Attach(p[|p| - 1], sub))
  }

  /** The entries the path leaves to the left of the subtree at its end. */
  function Before(p: seq<Frame>): seq<Entry>
    decreases |p|
  {
    if |p| == 0 then []
    else
      var f := p[|p| - 1];
      Before(p[..|p| - 1]) + (if f.dir == Right then Inorder(f.other) + [f.entry] else [])
  }

  /** The entries the path leaves to the right of the subtree at its end. */
  function After(p: seq<Frame>): seq<Entry>
    decreases |p|
  {
    if |p| == 0 then []
    else
      var f := p[|p| - 1];
      (if f.dir == Left then [f.entry] + Inorder(f.other) else []) + After(p[..|p| - 1])
  }

  /** The in-order sequence of a plugged tree: what lies left of the hole, the subtree, what lies right. */
  lemma {:induction false} PlugInorder(p: seq<Frame>, sub: Tree)
    ensures Inorder(Plug(p, sub)) == Before(p) + Inorder(sub) + After(p)
    decreases |p|
  {
    if |p| > 0 {
      var q, f := p[..|p| - 1], p[|p| - 1];
      var X := if f.dir == Right then Inorder(f.other) + [f.entry] else [];
      var Y := if f.dir == Left then [f.entry] + Inorder(f.other) else [];
      PlugInorder(q, Attach(f, sub));
      assert Inorder(Attach(f, sub)) == X + Inorder(sub) + Y;
      Seqs.Regroup(Before(q), X, Inorder(sub), Y, After(q));
    }
  }

  /** Replacing the subtree by one with the same entries keeps the whole tree's entries. */
  lemma PlugSame(p: seq<Frame>, a: Tree, b: Tree)
    requires Inorder(a) == Inorder(b)
    ensures Inorder(Plug(p, a)) == Inorder(Plug(p, b))
  {
    PlugInorder(p, a);
    PlugInorder(p, b);
  }

  lemma PlugOne(q: seq<Frame>, f: Frame, sub: Tree)
    ensures Plug(q + [f], sub) == Plug(q, Attach(f, sub))
  {
    assert (q + [f])[..|q|] == q;
  }

  lemma PlugTwo(q: seq<Frame>, g: Frame, f: Frame, sub: Tree)
    ensures Plug(q + [g, f], sub) == Plug(q, Attach(g, Attach(f, sub)))
  {
    assert (q + [g, f])[..|q| + 1] == q + [g];
    PlugOne(q, g, Attach(f, sub));
  }

  // ===== the red-black conditions along a path =====

  /** The other children along the path are balanced at the heights a subtree of black height h needs. */
  ghost predicate PathBalanced(p: seq<Frame>, h: nat)
    decreases |p|
  {
    |p| == 0 ||
    (var f := p[|p| - 1];
     BlackBalanced(f.other) && BlackHeight(f.other) == h && PathBalanced(p[..|p| - 1], h + Weight(f.color)))
  }

  /** No red frame sits under a red frame or over a red other child, and the other children are RedOk. */
  ghost predicate PathRed(p: seq<Frame>)
    decreases |p|
  {
    |p| == 0 ||
    (var f, q := p[|p| - 1], p[..|p| - 1];
     RedOk(f.other) && (f.color == Red ==> IsBlack(f.other)) &&
     (|q| > 0 && q[|q| - 1].color == Red ==> f.color == Black) && PathRed(q))
  }

  ghost predicate RootBlack(p: seq<Frame>)
  {
    |p| > 0 ==> p[0].color == Black
  }

  /** A red-black tree cut at the end of p, with x in the hole: what the descent keeps. */
  ghost predicate Hole(p: seq<Frame>, x: Tree)
  {
    BlackBalanced(x) && RedOk(x) && PathBalanced(p, BlackHeight(x)) && PathRed(p) && RootBlack(p) &&
    (|p| > 0 && p[|p| - 1].color == Red ==> IsBlack(x)) && (|p| == 0 ==> IsBlack(x))
  }

  /**
   * What rbtree_insert_fixup keeps: the node z is red and a valid red-black
   * subtree, and the path above it is valid except that z's parent may be red.
   */
  ghost predicate Fixing(p: seq<Frame>, z: Tree)
  {
    z.Node? && z.color == Red && BlackBalanced(z) && RedOk(z) &&
    PathBalanced(p, BlackHeight(z)) && PathRed(p) && RootBlack(p)
  }

  lemma PathOne(q: seq<Frame>, f: Frame, h: nat)
    ensures PathBalanced(q + [f], h) <==>
      BlackBalanced(f.other) && BlackHeight(f.other) == h && PathBalanced(q, h + Weight(f.color))
    ensures PathRed(q + [f]) <==>
      RedOk(f.other) && (f.color == Red ==> IsBlack(f.other)) &&
      (|q| > 0 && q[|q| - 1].color == Red ==> f.color == Black) && PathRed(q)
    ensures RootBlack(q + [f]) <==> if |q| > 0 then RootBlack(q) else f.color == Black
  {
    assert (q + [f])[..|q|] == q;
  }

  lemma PathTwo(q: seq<Frame>, g: Frame, f: Frame, h: nat)
    ensures PathBalanced(q + [g, f], h) <==>
      BlackBalanced(f.other) && BlackHeight(f.other) == h && PathBalanced(q + [g], h + Weight(f.color))
    ensures PathRed(q + [g, f]) <==>
      RedOk(f.other) && (f.color == Red ==> IsBlack(f.other)) &&
      (g.color == Red ==> f.color == Black) && PathRed(q + [g])
    ensures RootBlack(q + [g, f]) <==> RootBlack(q + [g])
  {
    assert (q + [g, f])[..|q| + 1] == q + [g];
  }

  /** Plugging a balanced subtree into a path balanced at its height gives a balanced tree. */
  lemma {:induction false} PlugBalanced(p: seq<Frame>, sub: Tree)
    requires BlackBalanced(sub) && PathBalanced(p, BlackHeight(sub))
    ensures BlackBalanced(Plug(p, sub))
    decreases |p|
  {
    if |p| > 0 {
      PlugBalanced(p[..|p| - 1], Attach(p[|p| - 1], sub));
    }
  }

  /** Plugging a RedOk subtree into a path whose last frame is black, or whose hole holds a black node. */
  lemma {:induction false} PlugRedOk(p: seq<Frame>, sub: Tree)
    requires RedOk(sub) && PathRed(p) && (|p| > 0 && p[|p| - 1].color == Red ==> IsBlack(sub))
    ensures RedOk(Plug(p, sub))
    decreases |p|
  {
    if |p| > 0 {
      PlugRedOk(p[..|p| - 1], Attach(p[|p| - 1], sub));
    }
  }

  lemma {:induction false} PlugRoot(p: seq<Frame>, sub: Tree)
    requires |p| > 0
    ensures Plug(p, sub).Node? && Plug(p, sub).color == p[0].color
    decreases |p|
  {
    if |p| > 1 {
      PlugRoot(p[..|p| - 1], Attach(p[|p| - 1], sub));
    }
  }

  /** A tree cut anywhere along a descent is whole again once plugged. */
  lemma HoleShape(p: seq<Frame>, x: Tree)
    requires Hole(p, x)
    ensures RedBlackShape(Plug(p, x))
  {
    PlugBalanced(p, x);
    PlugRedOk(p, x);
    if |p| > 0 {
      PlugRoot(p, x);
    }
  }

  /** One step down keeps the cut valid. */
  lemma HoleDown(p: seq<Frame>, x: Tree, d: Dir)
    requires Hole(p, x) && x.Node?
    ensures var f := Frame(d, x.color, x.entry, if d == Left then x.right else x.left);
      Hole(p + [f], if d == Left then x.left else x.right) && Attach(f, if d == Left then x.left else x.right) == x
  {
    var f := Frame(d, x.color, x.entry, if d == Left then x.right else x.left);
    var c := if d == Left then x.left else x.right;
    PathOne(p, f, BlackHeight(c));
  }

  /** The node that replaces x with a new entry in the same place has x's shape. */
  lemma HoleEntry(p: seq<Frame>, x: Tree, e: Entry)
    requires Hole(p, x) && x.Node?
    ensures Hole(p, x.(entry := e))
  {
  }

  /** The fresh red node hung where the descent fell off the tree. */
  lemma FixStart(p: seq<Frame>, e: Entry)
    requires Hole(p, Nil)
    ensures Fixing(p, Node(Red, Nil, e, Nil))
  {
  }

  /** The fixup ends once z's parent is black, or z is the root; blackening the root restores the tree. */
  lemma FixDone(p: seq<Frame>, z: Tree)
    requires Fixing(p, z) && !(|p| > 0 && p[|p| - 1].color == Red)
    ensures RedBlackShape(Blacken(Plug(p, z))) && Inorder(Blacken(Plug(p, z))) == Inorder(Plug(p, z))
  {
    PlugBalanced(p, z);
    PlugRedOk(p, z);
  }

  /** A red parent is never the root, so the grandparent the fixup looks at exists. */
  lemma RedParent(p: seq<Frame>, z: Tree)
    requires Fixing(p, z) && |p| > 0 && p[|p| - 1].color == Red
    ensures |p| >= 2
  {
  }

  // ===== the fixup cases =====

  /**
   * Case 1, either side: the uncle is red.  Parent and uncle turn black, the
   * grandparent red, and the grandparent becomes z, two frames up.
   */
  lemma RecolorCase(q: seq<Frame>, g: Frame, f: Frame, z: Tree)
    requires Fixing(q + [g, f], z) && f.color == Red && g.other.Node? && g.other.color == Red
    ensures var z2 := Attach(Frame(g.dir, Red, g.entry, g.other.(color := Black)), Attach(f.(color := Black), z));
      Fixing(q, z2) && Inorder(Plug(q, z2)) == Inorder(Plug(q + [g, f], z))
  {
    var h := BlackHeight(z);
    var u := g.other;
    var z2 := Attach(Frame(g.dir, Red, g.entry, u.(color := Black)), Attach(f.(color := Black), z));
    PathTwo(q, g, f, h);
    PathOne(q, g, h);
    assert Inorder(z2) == Inorder(Attach(g, Attach(f, z)));
    PlugTwo(q, g, f, z);
    PlugSame(q, z2, Attach(g, Attach(f, z)));
  }

  /**
   * Case 2, parent a left child: z is its parent's right child.  z moves up
   * to the parent and the parent is rotated left, so z is now a left child.
   */
  lemma InnerLeftCase(q: seq<Frame>, g: Frame, f: Frame, z: Tree)
    requires Fixing(q + [g, f], z) && f.color == Red && f.dir == Right && IsBlack(g.other)
    ensures var r := RotateLeft(Attach(f, z));
      var f2 := Frame(Left, r.color, r.entry, r.right);
      Fixing(q + [g, f2], r.left) && f2.color == Red && Attach(f2, r.left) == r &&
      Inorder(Plug(q + [g, f2], r.left)) == Inorder(Plug(q + [g, f], z))
  {
    var h := BlackHeight(z);
    var r := RotateLeft(Attach(f, z));
    var f2 := Frame(Left, r.color, r.entry, r.right);
    PathTwo(q, g, f, h);
    PathTwo(q, g, f2, h);
    PlugOne(q + [g], f, z);
    Seqs.Pair(g, f2);
    PlugOne(q + [g], f2, r.left);
    assert q + [g, f2] == q + [g] + [f2] && q + [g, f] == q + [g] + [f];
    PlugSame(q + [g], r, Attach(f, z));
  }

  /** Case 2, parent a right child: the mirror image, rotating the parent right. */
  lemma InnerRightCase(q: seq<Frame>, g: Frame, f: Frame, z: Tree)
    requires Fixing(q + [g, f], z) && f.color == Red && f.dir == Left && IsBlack(g.other)
    ensures var r := RotateRight(Attach(f, z));
      var f2 := Frame(Right, r.color, r.entry, r.left);
      Fixing(q + [g, f2], r.right) && f2.color == Red && Attach(f2, r.right) == r &&
      Inorder(Plug(q + [g, f2], r.right)) == Inorder(Plug(q + [g, f], z))
  {
    var h := BlackHeight(z);
    var r := RotateRight(Attach(f, z));
    var f2 := Frame(Right, r.color, r.entry, r.left);
    PathTwo(q, g, f, h);
    PathTwo(q, g, f2, h);
    PlugOne(q + [g], f, z);
    PlugOne(q + [g], f2, r.right);
    assert q + [g, f2] == q + [g] + [f2] && q + [g, f] == q + [g] + [f];
    PlugSame(q + [g], r, Attach(f, z));
  }

  /**
   * Case 3, parent a left child and z a left child: the parent turns black,
   * the grandparent red, and the grandparent is rotated right.  z's new
   * parent is black, which ends the loop.
   */
  lemma OuterLeftCase(q: seq<Frame>, g: Frame, f: Frame, z: Tree)
    requires Fixing(q + [g, f], z) && f.color == Red && g.dir == Left && f.dir == Left && IsBlack(g.other)
    ensures var r := RotateRight(Attach(g.(color := Red), Attach(f.(color := Black), z)));
      var f2 := Frame(Left, r.color, r.entry, r.right);
      r.left == z && f2.color == Black && Fixing(q + [f2], z) &&
      Inorder(Plug(q + [f2], z)) == Inorder(Plug(q + [g, f], z))
  {
    var h := BlackHeight(z);
    var G := Attach(g.(color := Red), Attach(f.(color := Black), z));
    var r := RotateRight(G);
    var f2 := Frame(Left, r.color, r.entry, r.right);
    PathTwo(q, g, f, h);
    PathOne(q, g, h);
    PathOne(q, f2, h);
    PlugTwo(q, g, f, z);
    PlugOne(q, f2, z);
    assert Inorder(G) == Inorder(Attach(g, Attach(f, z)));
    PlugSame(q, r, Attach(g, Attach(f, z)));
  }

  /** Case 3, parent a right child and z a right child: the mirror image, rotating the grandparent left. */
  lemma OuterRightCase(q: seq<Frame>, g: Frame, f: Frame, z: Tree)
    requires Fixing(q + [g, f], z) && f.color == Red && g.dir == Right && f.dir == Right && IsBlack(g.other)
    ensures var r := RotateLeft(Attach(g.(color := Red), Attach(f.(color := Black), z)));
      var f2 := Frame(Right, r.color, r.entry, r.left);
      r.right == z && f2.color == Black && Fixing(q + [f2], z) &&
      Inorder(Plug(q + [f2], z)) == Inorder(Plug(q + [g, f], z))
  {
    var h := BlackHeight(z);
    var G := Attach(g.(color := Red), Attach(f.(color := Black), z));
    var r := RotateLeft(G);
    var f2 := Frame(Right, r.color, r.entry, r.left);
    PathTwo(q, g, f, h);
    PathOne(q, g, h);
    PathOne(q, f2, h);
    PlugTwo(q, g, f, z);
    PlugOne(q, f2, z);
    assert Inorder(G) == Inorder(Attach(g, Attach(f, z)));
    PlugSame(q, r, Attach(g, Attach(f, z)));
  }

  // ===== descent by key =====

  lemma SortedNode(x: Tree)
    requires x.Node? && EntriesSorted(Inorder(x))
    ensures EntriesSorted(Inorder(x.left)) && EntriesSorted(Inorder(x.right))
    ensures AllLess(Inorder(x.left), x.entry.key) && AllGreater(Inorder(x.right), x.entry.key)
  {
    SortedSplit(Inorder(x.left), x.entry, Inorder(x.right));
  }

  lemma SortedSplit(L: seq<Entry>, e: Entry, R: seq<Entry>)
    requires EntriesSorted(L + [e] + R)
    ensures EntriesSorted(L) && EntriesSorted(R) && AllLess(L, e.key) && AllGreater(R, e.key)
  {
    var G := L + [e] + R;
    assert G[|L|] == e;
    forall i, j | 0 <= i < j < |L| ensures KeyLess(L[i].key, L[j].key) {
      assert G[i] == L[i] && G[j] == L[j];
    }
    forall i | 0 <= i < |L| ensures KeyLess(L[i].key, e.key) {
      assert G[i] == L[i];
    }
    forall i, j | 0 <= i < j < |R| ensures KeyLess(R[i].key, R[j].key) {
      assert G[|L| + 1 + i] == R[i] && G[|L| + 1 + j] == R[j];
    }
    forall j | 0 <= j < |R| ensures KeyLess(e.key, R[j].key) {
      assert G[|L| + 1 + j] == R[j];
    }
  }

  lemma AllLessTrans(F: seq<Entry>, a: Key, b: Key)
    requires AllLess(F, a) && KeyLess(a, b)
    ensures AllLess(F, b)
  {
    forall i | 0 <= i < |F| ensures KeyLess(F[i].key, b) {
      KeyLessTrans(F[i].key, a, b);
    }
  }

  lemma AllGreaterTrans(F: seq<Entry>, a: Key, b: Key)
    requires AllGreater(F, b) && KeyLess(a, b)
    ensures AllGreater(F, a)
  {
    forall i | 0 <= i < |F| ensures KeyLess(a, F[i].key) {
      KeyLessTrans(a, b, F[i].key);
    }
  }

  /**
   * What a descent towards key k keeps: the path rebuilds the tree, the
   * subtree reached is sorted, and everything the path left behind lies
   * below k on the left and above k on the right.
   */
  ghost predicate Toward(t: Tree, p: seq<Frame>, x: Tree, k: Key)
  {
    Plug(p, x) == t && EntriesSorted(Inorder(x)) && AllLess(Before(p), k) && AllGreater(After(p), k)
  }

  /** One step of the descent: left when k is below the node's key, right when above. */
  lemma Descend(t: Tree, p: seq<Frame>, x: Tree, k: Key, d: Dir)
    requires Toward(t, p, x, k) && x.Node?
    requires if d == Left then KeyLess(k, x.entry.key) else KeyLess(x.entry.key, k)
    ensures var f := Frame(d, x.color, x.entry, if d == Left then x.right else x.left);
      Toward(t, p + [f], if d == Left then x.left else x.right, k)
  {
    var f := Frame(d, x.color, x.entry, if d == Left then x.right else x.left);
    var c := if d == Left then x.left else x.right;
    assert (p + [f])[..|p|] == p;
    assert Attach(f, c) == x;
    PlugOne(p, f, c);
    SortedNode(x);
    if d == Left {
      AllGreaterTrans(Inorder(x.right), k, x.entry.key);
      assert After(p + [f]) == [x.entry] + Inorder(x.right) + After(p);
    } else {
      AllLessTrans(Inorder(x.left), x.entry.key, k);
      assert Before(p + [f]) == Before(p) + (Inorder(x.left) + [x.entry]);
    }
  }

  /** A descent that fell off the tree: no entry of t has key k. */
  lemma DescentMissed(t: Tree, p: seq<Frame>, k: Key)
    requires Toward(t, p, Nil, k)
    ensures Inorder(t) == Before(p) + After(p)
    ensures forall i :: 0 <= i < |Inorder(t)| ==> Inorder(t)[i].key != k
  {
    PlugInorder(p, Nil);
    LessNotKey(Before(p), k);
    GreaterNotKey(After(p), k);
  }

  /** A descent that reached a node of key k: the node's entry is the only one of key k. */
  lemma DescentHit(t: Tree, p: seq<Frame>, x: Tree, k: Key)
    requires Toward(t, p, x, k) && x.Node? && x.entry.key == k
    ensures var A, B := Before(p) + Inorder(x.left), Inorder(x.right) + After(p);
      Inorder(t) == A + [x.entry] + B && AllLess(A, k) && AllGreater(B, k)
  {
    PlugInorder(p, x);
    SortedNode(x);
    Seqs.Regroup(Before(p), Inorder(x.left), [x.entry], Inorder(x.right), After(p));
  }

  // ===== rbtree_search =====

  /**
   * rbtree_search: the entry of the node whose key is k, tombstoned or not,
   * or None when the descent reaches the sentinel.
   */
  method Search(t: Tree, k: Key) returns (r: Option<Entry>)
    requires EntriesSorted(Inorder(t))
    ensures r.Some? ==> r.value.key == k && r.value in Inorder(t)
    ensures r.None? <==> forall i :: 0 <= i < |Inorder(t)| ==> Inorder(t)[i].key != k
  {
    var x := t;
    ghost var p: seq<Frame> := [];
    while x.Node?
      invariant Toward(t, p, x, k)
      decreases x
    {
      var c := KeyCmp(k, x.entry.key);
      if c == 0 {
        KeyCmpZero(k, x.entry.key);
        DescentHit(t, p, x, k);
        var A, B := Before(p) + Inorder(x.left), Inorder(x.right) + After(p);
        assert Inorder(t)[|A|] == x.entry;
        return Some(x.entry);
      }
      if c < 0 {
        Descend(t, p, x, k, Left);
        p, x := p + [Frame(Left, x.color, x.entry, x.right)], x.left;
      } else {
        KeyCmpAntisym(k, x.entry.key);
        Descend(t, p, x, k, Right);
        p, x := p + [Frame(Right, x.color, x.entry, x.left)], x.right;
      }
    }
    DescentMissed(t, p, k);
    r := None;
  }

  /** What a found entry says about the live map of a sorted sequence: live exactly when not tombstoned. */
  lemma FoundLive(F: seq<Entry>, e: Entry)
    requires EntriesSorted(F) && e in F
    ensures e.key in LiveMap(F) <==> !e.deleted
    ensures !e.deleted ==> LiveMap(F)[e.key] == e.value
  {
    var j :| 0 <= j < |F| && F[j] == e;
    SortedKeyOnlyAt(F, j);
    if e.deleted {
      LiveMapAbsent(F, e.key);
    } else {
      LiveMapAt(F, j);
    }
  }

  // ===== rbtree_insert =====

  /**
   * rbtree_insert of a node carrying entry e: descend by keycmp; a node with
   * the same key takes e in place of its entry; otherwise e goes into a new
   * red node where the descent reached the sentinel and rbtree_insert_fixup
   * repairs the colours.  The entries become InsertSorted of the old ones.
   */
  method Insert(t: Tree, e: Entry) returns (t2: Tree)
    requires IsRBTree(t)
    ensures IsRBTree(t2)
    ensures Inorder(t2) == InsertSorted(Inorder(t), e)
  {
    var x := t;
    var p: seq<Frame> := [];
    while x.Node?
      invariant Toward(t, p, x, e.key) && Hole(p, x)
      decreases x
    {
      var c := KeyCmp(e.key, x.entry.key);
      if c < 0 {
        Descend(t, p, x, e.key, Left);
        HoleDown(p, x, Left);
        p, x := p + [Frame(Left, x.color, x.entry, x.right)], x.left;
      } else if c > 0 {
        KeyCmpAntisym(e.key, x.entry.key);
        Descend(t, p, x, e.key, Right);
        HoleDown(p, x, Right);
        p, x := p + [Frame(Right, x.color, x.entry, x.left)], x.right;
      } else {
        KeyCmpZero(e.key, x.entry.key);
        ReplaceEntry(t, p, x, e);
        return Plug(p, x.(entry := e));
      }
    }
    var z := Node(Red, Nil, e, Nil);
    HangNew(t, p, e);
    FixStart(p, e);
    t2 := InsertFixup(p, z);
  }

  /** The equal-key case of rbtree_insert: x->entry = z->entry. */
  lemma ReplaceEntry(t: Tree, p: seq<Frame>, x: Tree, e: Entry)
    requires IsRBTree(t) && Toward(t, p, x, e.key) && Hole(p, x) && x.Node? && x.entry.key == e.key
    ensures IsRBTree(Plug(p, x.(entry := e))) && Inorder(Plug(p, x.(entry := e))) == InsertSorted(Inorder(t), e)
  {
    var x2 := x.(entry := e);
    HoleEntry(p, x, e);
    HoleShape(p, x2);
    DescentHit(t, p, x, e.key);
    var A, B := Before(p) + Inorder(x.left), Inorder(x.right) + After(p);
    InsertSortedMiddle(A, [x.entry], B, e);
    KeyTotal(x.entry.key, e.key);
    assert InsertSorted([x.entry], e) == [e];
    PlugInorder(p, x2);
    Seqs.Regroup(Before(p), Inorder(x.left), [e], Inorder(x.right), After(p));
    InsertSortedSorted(Inorder(t), e);
  }

  /** The new red node hung at the end of the descent holds InsertSorted of the entries. */
  lemma HangNew(t: Tree, p: seq<Frame>, e: Entry)
    requires IsRBTree(t) && Toward(t, p, Nil, e.key)
    ensures Inorder(Plug(p, Node(Red, Nil, e, Nil))) == InsertSorted(Inorder(t), e)
    ensures EntriesSorted(InsertSorted(Inorder(t), e))
  {
    DescentMissed(t, p, e.key);
    InsertSortedMiddle(Before(p), [], After(p), e);
    assert Before(p) + [] + After(p) == Before(p) + After(p);
    PlugInorder(p, Node(Red, Nil, e, Nil));
    assert Inorder(Node(Red, Nil, e, Nil)) == [e];
    InsertSortedSorted(Inorder(t), e);
  }

  /**
   * rbtree_insert_fixup: while z's parent is red, recolour when the uncle is
   * red and climb two levels, otherwise rotate (once or twice) and stop;
   * finally blacken the root.
   */
  method InsertFixup(p0: seq<Frame>, z0: Tree) returns (t2: Tree)
    requires Fixing(p0, z0)
    ensures RedBlackShape(t2) && Inorder(t2) == Inorder(Plug(p0, z0))
  {
    var p, z := p0, z0;
    while |p| > 0 && p[|p| - 1].color == Red
      invariant Fixing(p, z) && Inorder(Plug(p, z)) == Inorder(Plug(p0, z0))
      decreases |p|
    {
      RedParent(p, z);
      var q, g, f := p[..|p| - 2], p[|p| - 2], p[|p| - 1];
      assert p == q + [g, f];
      var y := g.other;
      if y.Node? && y.color == Red {
        RecolorCase(q, g, f, z);
        p, z := q, Attach(Frame(g.dir, Red, g.entry, y.(color := Black)), Attach(f.(color := Black), z));
      } else if g.dir == Left {
        if f.dir == Right {
          InnerLeftCase(q, g, f, z);
          var r := RotateLeft(Attach(f, z));
          f, z := Frame(Left, r.color, r.entry, r.right), r.left;
        }
        OuterLeftCase(q, g, f, z);
        var r := RotateRight(Attach(g.(color := Red), Attach(f.(color := Black), z)));
        p := q + [Frame(Left, r.color, r.entry, r.right)];
      } else {
        if f.dir == Left {
          InnerRightCase(q, g, f, z);
          var r := RotateRight(Attach(f, z));
          f, z := Frame(Right, r.color, r.entry, r.left), r.right;
        }
        OuterRightCase(q, g, f, z);
        var r := RotateLeft(Attach(g.(color := Red), Attach(f.(color := Black), z)));
        p := q + [Frame(Right, r.color, r.entry, r.left)];
      }
    }
    FixDone(p, z);
    t2 := Blacken(Plug(p, z));
  }

  /** What rbtree_insert does to the live map: the key of a live entry is bound to its value. */
  lemma InsertLive(t: Tree, e: Entry)
    requires IsRBTree(t) && !e.deleted
    ensures LiveMap(InsertSorted(Inorder(t), e)) == LiveMap(Inorder(t))[e.key := e.value]
  {
    InsertSortedLive(Inorder(t), e);
  }

  // ===== tombstones =====

  /** The tree with the entry of key k tombstoned where it sits: node->entry->deleted = 1. */
  function MarkTree(t: Tree, k: Key): (r: Tree)
    ensures Inorder(r) == MarkKey(Inorder(t), k)
    ensures BlackHeight(r) == BlackHeight(t) && IsBlack(r) == IsBlack(t)
    ensures BlackBalanced(r) == BlackBalanced(t) && RedOk(r) == RedOk(t)
  {
    match t
    case Nil => Nil
    case Node(c, l, e, rt) =>
      var e2 := if e.key == k then e.(deleted := true) else e;
      var r := Node(c, MarkTree(l, k), e2, MarkTree(rt, k));
      assert Inorder(r) == MarkKey(Inorder(t), k) by {
        MarkKeyNode(Inorder(l), e, Inorder(rt), k);
      }
      r
  }

  lemma MarkKeyNode(L: seq<Entry>, e: Entry, R: seq<Entry>, k: Key)
    ensures MarkKey(L + [e] + R, k) == MarkKey(L, k) + [if e.key == k then e.(deleted := true) else e] + MarkKey(R, k)
  {
    MarkKeyAppend(L + [e], R, k);
    MarkKeyAppend(L, [e], k);
  }

  /** Tombstoning keeps every key where it was, so the order invariant holds. */
  lemma MarkTreeValid(t: Tree, k: Key)
    requires IsRBTree(t)
    ensures IsRBTree(MarkTree(t, k))
    ensures LiveMap(Inorder(MarkTree(t, k))) == LiveMap(Inorder(t)) - {k}
  {
    MarkKeyLive(Inorder(t), k);
  }

  // ===== the strcmp-ordered copies of kvs_hybrid.c and kvs_rbtree.c =====

  /**
   * What those two copies store: keys measured by strlen, hence NUL-free,
   * and no tombstones (neither file has a delete).
   */
  ghost predicate CStrEntries(F: seq<Entry>)
  {
    forall i :: 0 <= i < |F| ==> NulFree(F[i].key) && !F[i].deleted
  }

  lemma CStrEntriesNode(x: Tree)
    requires x.Node? && CStrEntries(Inorder(x))
    ensures CStrEntries(Inorder(x.left)) && CStrEntries(Inorder(x.right))
    ensures NulFree(x.entry.key) && !x.entry.deleted
  {
    var A, B := Inorder(x.left), Inorder(x.right);
    assert Inorder(x)[|A|] == x.entry;
    forall i | 0 <= i < |A| ensures NulFree(A[i].key) && !A[i].deleted {
      assert Inorder(x)[i] == A[i];
    }
    forall i | 0 <= i < |B| ensures NulFree(B[i].key) && !B[i].deleted {
      assert Inorder(x)[|A| + 1 + i] == B[i];
    }
  }

  /**
   * rbtree_search of kvs_hybrid.c and kvs_rbtree.c: the descent compares the
   * probe buffer itself with strcmp.  Against a NUL-free key, strcmp(probe,
   * key) is keycmp(CStr(probe), key), so the node found is the one whose key
   * is the probe's C string.
   */
  method SearchCStr(t: Tree, probe: seq<byte>) returns (r: Option<Entry>)
    requires EntriesSorted(Inorder(t)) && CStrEntries(Inorder(t))
    ensures r.Some? ==> r.value.key == CStr(probe) && r.value in Inorder(t)
    ensures r.None? <==> forall i :: 0 <= i < |Inorder(t)| ==> Inorder(t)[i].key != CStr(probe)
  {
    var x := t;
    ghost var p: seq<Frame> := [];
    ghost var k := CStr(probe);
    while x.Node?
      invariant Toward(t, p, x, k) && CStrEntries(Inorder(x))
      decreases x
    {
      CStrEntriesNode(x);
      StrCmpIsKeyCmpOfCStr(probe, x.entry.key);
      CStrOfNulFree(x.entry.key);
      var c := StrCmp(probe, x.entry.key);
      if c == 0 {
        KeyCmpZero(k, x.entry.key);
        DescentHit(t, p, x, k);
        var A, B := Before(p) + Inorder(x.left), Inorder(x.right) + After(p);
        assert Inorder(t)[|A|] == x.entry;
        return Some(x.entry);
      }
      if c < 0 {
        Descend(t, p, x, k, Left);
        p, x := p + [Frame(Left, x.color, x.entry, x.right)], x.left;
      } else {
        KeyCmpAntisym(k, x.entry.key);
        Descend(t, p, x, k, Right);
        p, x := p + [Frame(Right, x.color, x.entry, x.left)], x.right;
      }
    }
    DescentMissed(t, p, k);
    r := None;
  }

  /**
   * rbtree_insert of a new node in the two strcmp copies.  Both keys compared
   * are stored keys, NUL-free, on which strcmp and keycmp agree
   * (Keys.StrCmpIsKeyCmp), so this is Insert; an equal key's node takes the
   * new value.  The tree keeps storing C-string entries, one per key.
   */
  method InsertCStr(t: Tree, key: Key, value: Value) returns (t2: Tree)
    requires IsRBTree(t) && CStrEntries(Inorder(t)) && NulFree(key)
    ensures IsRBTree(t2) && CStrEntries(Inorder(t2))
    ensures LiveMap(Inorder(t2)) == LiveMap(Inorder(t))[key := value]
    ensures |Inorder(t2)| == |Inorder(t)| + (if key in LiveMap(Inorder(t)) then 0 else 1)
  {
    var e := Entry(key, value, false);
    InsertLive(t, e);
    t2 := Insert(t, e);
    InsertSortedMembers(Inorder(t), e);
    ghost var F, G := Inorder(t), Inorder(t2);
    forall i | 0 <= i < |G| ensures NulFree(G[i].key) && !G[i].deleted {
      if G[i] != e {
        var j :| 0 <= j < |F| && F[j] == G[i];
      }
    }
    LiveMapCard(F);
    LiveMapCard(G);
    CStrPairs(F);
    CStrPairs(G);
  }

  /** Without tombstones every entry is a live pair. */
  lemma {:induction false} CStrPairs(F: seq<Entry>)
    requires CStrEntries(F)
    ensures |LivePairs(F)| == |F|
    decreases |F|
  {
    if |F| > 0 {
      CStrPairs(F[..|F| - 1]);
    }
  }

  /** rbtree_search with a C-string probe, then the found node's value copied out: the value bound to the probe, or NULL. */
  method SearchValue(t: Tree, probe: seq<byte>) returns (r: Option<Value>)
    requires IsRBTree(t) && CStrEntries(Inorder(t))
    ensures r == if CStr(probe) in LiveMap(Inorder(t)) then Some(LiveMap(Inorder(t))[CStr(probe)]) else None
  {
    var node := SearchCStr(t, probe);
    if node.Some? {
      FoundLive(Inorder(t), node.value);
      r := Some(node.value.value);
    } else {
      assert node.None?;
      assert forall i :: 0 <= i < |Inorder(t)| ==> Inorder(t)[i].key != CStr(probe);
      LiveMapAbsent(Inorder(t), CStr(probe));
      r := None;
    }
  }

  /**
   * Entries inserted one after the other with InsertCStr, in sequence order:
   * a later entry overwrites an earlier one of the same key, and the tree
   * grows by at most one node per entry.
   */
  method InsertAll(t: Tree, L: seq<Entry>) returns (t2: Tree)
    requires IsRBTree(t) && CStrEntries(Inorder(t)) && CStrEntries(L)
    ensures IsRBTree(t2) && CStrEntries(Inorder(t2))
    ensures LiveMap(Inorder(t2)) == LiveMap(Inorder(t) + L)
    ensures |Inorder(t2)| <= |Inorder(t)| + |L|
  {
    t2 := t;
    var i := 0;
    assert Inorder(t) + L[..0] == Inorder(t);
    while i < |L|
      invariant i <= |L|
      invariant IsRBTree(t2) && CStrEntries(Inorder(t2))
      invariant LiveMap(Inorder(t2)) == LiveMap(Inorder(t) + L[..i])
      invariant |Inorder(t2)| <= |Inorder(t)| + i
    {
      LiveMapSnoc(Inorder(t), L, i);
      t2 := InsertCStr(t2, L[i].key, L[i].value);
      i := i + 1;
    }
    assert L[..i] == L;
  }

  /** One more live entry of L taken: its binding is added last. */
  lemma LiveMapSnoc(F: seq<Entry>, L: seq<Entry>, i: nat)
    requires i < |L| && !L[i].deleted
    ensures LiveMap(F + L[..i + 1]) == LiveMap(F + L[..i])[L[i].key := L[i].value]
  {
    assert F + L[..i + 1] == (F + L[..i]) + [L[i]];
    LiveMapAppend(F + L[..i], [L[i]]);
    LiveMapOne(L[i]);
  }

  // ===== height =====

  function Pow2(n: nat): nat
  {
    if n == 0 then 1 else 2 * Pow2(n - 1)
  }

  /** No path is more than twice as long as the black height, plus the red root. */
  lemma {:induction false} HeightBound(t: Tree)
    requires RedOk(t) && BlackBalanced(t)
    ensures Height(t) <= 2 * BlackHeight(t) + (if IsBlack(t) then 0 else 1)
  {
    match t
    case Nil =>
    case Node(c, l, _, r) =>
      HeightBound(l);
      HeightBound(r);
  }

  /** A balanced tree of black height h holds at least 2^h - 1 entries. */
  lemma {:induction false} SizeBound(t: Tree)
    requires BlackBalanced(t)
    ensures |Inorder(t)| + 1 >= Pow2(BlackHeight(t))
  {
    match t
    case Nil =>
    case Node(c, l, _, r) =>
      SizeBound(l);
      SizeBound(r);
  }

  lemma {:induction false} Pow2Grows(a: nat, b: nat)
    requires a <= b
    ensures Pow2(a) <= Pow2(b)
    decreases b
  {
    if a < b {
      Pow2Grows(a, b - 1);
    }
  }

  /** A red-black tree of fewer than 2^22 entries is at most 44 nodes deep. */
  lemma HeightLimit(t: Tree)
    requires RedBlackShape(t) && |Inorder(t)| < Pow2(22)
    ensures Height(t) <= 44
  {
    HeightBound(t);
    SizeBound(t);
    assert Pow2(23) == 2 * Pow2(22);
    if BlackHeight(t) > 22 {
      Pow2Grows(23, BlackHeight(t));
    }
  }
}
