/** The intrusive red-black tree of lib/rbtree.c: CLRS insertion with parent pointers,
    search, and the in-order walks.

    A Tree keeps a ghost mirror of its nodes, `g`.  Besides the four real fields, a mirrored
    cell has coordinates: the subtree of n covers the half-open interval [lo, hi) of the
    in-order sequence `order`, and n itself is order[idx].  Every shape invariant is then local
    to a node and its neighbours, so a rotation only has to re-establish it for the nodes it
    relinks, and the in-order sequence is literally unchanged by one. */
module RbTree {
  import opened Arith

  type Key(!new)

  datatype Color = Red | Black

  class Node {
    const key: Key
    var parent: Node?
    var left: Node?
    var right: Node?
    var color: Color

    constructor (key: Key)
      ensures this.key == key
    {
      this.key := key;
      parent, left, right, color := null, null, null, Red;
    }
  }

  datatype Cell = Cell(parent: Node?, left: Node?, right: Node?, color: Color,
                       lo: int, idx: int, hi: int, bh: nat)

  type Graph = map<Node, Cell>

  /** A C comparator, read as a three-way total preorder on the keys. */
  ghost predicate TotalPreorder(cmp: (Key, Key) -> int) {
    && (forall a, b :: cmp(a, b) < 0 <==> cmp(b, a) > 0)
    && (forall a, b, c :: cmp(a, b) <= 0 && cmp(b, c) <= 0 ==> cmp(a, c) <= 0)
  }

  ghost predicate SortedBy(s: seq<Node>, cmp: (Key, Key) -> int) {
    forall i, j :: 0 <= i < j < |s| ==> cmp(s[i].key, s[j].key) <= 0
  }

  // ----- Shape -----

  /** n agrees with its parent, its children, and its place in the in-order sequence. */
  ghost predicate Linked(g: Graph, root: Node?, order: seq<Node>, n: Node)
    requires n in g
  {
    var c := g[n];
    && 0 <= c.lo <= c.idx < c.hi <= |order| && order[c.idx] == n
    && (c.left == null ==> c.lo == c.idx)
    && (c.left != null ==>
          c.left in g && g[c.left].parent == n && g[c.left].lo == c.lo && g[c.left].hi == c.idx)
    && (c.right == null ==> c.hi == c.idx + 1)
    && (c.right != null ==>
          c.right in g && g[c.right].parent == n && g[c.right].lo == c.idx + 1 && g[c.right].hi == c.hi)
    && (c.parent == null ==> n == root)
    && (c.parent != null ==> c.parent in g && (g[c.parent].left == n || g[c.parent].right == n))
  }

  ghost predicate Shape(g: Graph, root: Node?, order: seq<Node>) {
    && (root == null <==> order == [])
    && (root != null ==>
          root in g && g[root].parent == null && g[root].lo == 0 && g[root].hi == |order|)
    && (forall i :: 0 <= i < |order| ==> order[i] in g && g[order[i]].idx == i)
    && (forall n {:trigger Linked(g, root, order, n)} :: n in g ==> Linked(g, root, order, n))
  }

  lemma NodesAreInOrder(g: Graph, root: Node?, order: seq<Node>)
    requires Shape(g, root, order)
    ensures forall n :: n in g ==> n in order
  {
    forall n | n in g ensures n in order { assert Linked(g, root, order, n); }
  }

  /** The child of x that a rotation lifts: the right one for a left rotation. */
  ghost function Lifted(g: Graph, x: Node, left: bool): Node?
    requires x in g
  {
    if left then g[x].right else g[x].left
  }

  /** x has the child that a rotation lifts. */
  ghost predicate Rotatable(g: Graph, x: Node, left: bool) {
    && x in g && Lifted(g, x, left) != null && Lifted(g, x, left) in g
  }

  /** g' is g with the edge from x to its lifted child y turned around: y's inner child b goes
      to x, x's former parent adopts y, and nothing else moves. */
  ghost predicate Turned(g: Graph, g': Graph, x: Node, left: bool)
    requires Rotatable(g, x, left)
  {
    var y := Lifted(g, x, left);
    var b := Lifted(g, y, !left);
    && g'.Keys == g.Keys
    && g'[x] == (if left then g[x].(right := b, parent := y, hi := g[y].idx)
                 else g[x].(left := b, parent := y, lo := g[y].idx + 1))
    && g'[y] == (if left then g[y].(left := x, parent := g[x].parent, lo := g[x].lo, hi := g[x].hi)
                 else g[y].(right := x, parent := g[x].parent, lo := g[x].lo, hi := g[x].hi))
    && (forall n :: n in g && n != x && n != y ==>
          g'[n] == g[n].(left := if g[n].left == x then y else g[n].left,
                         right := if g[n].right == x then y else g[n].right,
                         parent := if n == b then x else g[n].parent))
  }

  /** The nodes a rotation touches are distinct. */
  lemma RotateDistinct(g: Graph, root: Node?, order: seq<Node>, x: Node, left: bool)
    requires Shape(g, root, order) && Rotatable(g, x, left)
    ensures var y := Lifted(g, x, left); var b := Lifted(g, y, !left); var p := g[x].parent;
            && x != y && b != x && b != y && p != x && p != y && (p != null ==> p != b)
            && g[y].parent == x && (b != null ==> b in g && g[b].parent == y)
  {
    var y := Lifted(g, x, left);
    assert Linked(g, root, order, x) && Linked(g, root, order, y);
    if g[x].parent != null { assert Linked(g, root, order, g[x].parent); }
  }

  /** The surroundings of an edge that a rotation may turn around. */
  ghost predicate RotationSite(g: Graph, root: Node?, x: Node, left: bool) {
    && Rotatable(g, x, left)
    && (var y := Lifted(g, x, left); var b := Lifted(g, y, !left); var p := g[x].parent;
        && x != y && b != x && b != y && p != x && p != y && (p != null ==> p != b)
        && (b != null ==> b in g)
        && (p == null <==> root == x)
        && (p != null ==> p in g && (g[p].left == x) != (g[p].right == x)))
    && (forall n {:trigger g[n]} :: n in g && (g[n].left == x || g[n].right == x) ==> g[x].parent == n)
  }

  lemma ShapeGivesSite(g: Graph, root: Node?, order: seq<Node>, x: Node, left: bool)
    requires Shape(g, root, order) && Rotatable(g, x, left)
    ensures RotationSite(g, root, x, left)
  {
    RotateDistinct(g, root, order, x, left);
    assert Linked(g, root, order, x);
    if g[x].parent != null { assert Linked(g, root, order, g[x].parent); }
    forall n | n in g && (g[n].left == x || g[n].right == x) ensures g[x].parent == n {
      assert Linked(g, root, order, n);
    }
  }

  lemma TurnedPairLinked(g: Graph, g': Graph, root: Node?, root': Node?, order: seq<Node>, x: Node, left: bool, n: Node)
    requires Shape(g, root, order) && Rotatable(g, x, left) && Turned(g, g', x, left)
    requires root' == (if root == x then Lifted(g, x, left) else root)
    requires n == x || n == Lifted(g, x, left)
    ensures Linked(g', root', order, n)
  {
    RotateDistinct(g, root, order, x, left);
    assert Linked(g, root, order, x) && Linked(g, root, order, Lifted(g, x, left));
  }

  lemma TurnedRestLinked(g: Graph, g': Graph, root: Node?, root': Node?, order: seq<Node>, x: Node, left: bool, n: Node)
    requires Shape(g, root, order) && Rotatable(g, x, left) && Turned(g, g', x, left)
    requires root' == (if root == x then Lifted(g, x, left) else root)
    requires n in g && n != x && n != Lifted(g, x, left)
    ensures Linked(g', root', order, n)
  {
    RotateDistinct(g, root, order, x, left);
    assert Linked(g, root, order, n);
    assert Linked(g, root, order, x) && Linked(g, root, order, Lifted(g, x, left));
  }

  lemma TurnedRoot(g: Graph, g': Graph, root: Node?, root': Node?, order: seq<Node>, x: Node, left: bool)
    requires Shape(g, root, order) && Rotatable(g, x, left) && Turned(g, g', x, left)
    requires root' == (if root == x then Lifted(g, x, left) else root)
    ensures root' != null && root' in g' && g'[root'].parent == null && g'[root'].lo == 0 && g'[root'].hi == |order|
    ensures forall i :: 0 <= i < |order| ==> order[i] in g' && g'[order[i]].idx == i
  {
    assert Linked(g, root, order, x) && Linked(g, root, order, Lifted(g, x, left));
  }

  /** A rotation keeps the tree well linked and does not move any node in the in-order
      sequence. */
  lemma RotationKeepsShape(g: Graph, g': Graph, root: Node?, root': Node?, order: seq<Node>, x: Node, left: bool)
    requires Shape(g, root, order) && Rotatable(g, x, left) && Turned(g, g', x, left)
    requires root' == (if root == x then Lifted(g, x, left) else root)
    ensures Shape(g', root', order)
  {
    TurnedRoot(g, g', root, root', order, x, left);
    forall n | n in g' ensures Linked(g', root', order, n) {
      if n == x || n == Lifted(g, x, left) {
        TurnedPairLinked(g, g', root, root', order, x, left, n);
      } else {
        TurnedRestLinked(g, g', root, root', order, x, left, n);
      }
    }
  }

  // ----- Colours -----

  /** Black nodes on every path from x down to a missing child, counting x. */
  ghost function Bh(g: Graph, x: Node?): nat {
    if x == null || x !in g then 0 else g[x].bh
  }

  ghost predicate Balanced(g: Graph, n: Node)
    requires n in g
  {
    && Bh(g, g[n].left) == Bh(g, g[n].right)
    && g[n].bh == Bh(g, g[n].left) + (if g[n].color == Black then 1 else 0)
  }

  ghost predicate RedRule(g: Graph, n: Node)
    requires n in g
  {
    var p := g[n].parent;
    g[n].color == Red && p != null && p in g ==> g[p].color == Black
  }

  /** The red-black tree invariant. */
  ghost predicate RedBlack(g: Graph, root: Node?, order: seq<Node>) {
    && Shape(g, root, order)
    && (forall n {:trigger Balanced(g, n)} :: n in g ==> Balanced(g, n))
    && (forall n {:trigger RedRule(g, n)} :: n in g ==> RedRule(g, n))
    && (root != null ==> g[root].color == Black)
  }

  /** The invariant of the fix-up loop: only `node` may be red under a red parent. */
  ghost predicate FixInv(g: Graph, root: Node?, order: seq<Node>, node: Node) {
    && Shape(g, root, order)
    && node in g && g[node].color == Red && root != null
    && (forall n {:trigger Balanced(g, n)} :: n in g ==> Balanced(g, n))
    && (forall n {:trigger RedRule(g, n)} :: n in g && n != node ==> RedRule(g, n))
    && (root == node || g[root].color == Black)
  }

  ghost predicate RedParent(g: Graph, node: Node)
    requires node in g
  {
    var p := g[node].parent;
    p != null && p in g && g[p].color == Red
  }

  /** A red parent is not the root, so the grandparent the code dereferences exists; and it is
      black. */
  lemma GrandparentIsBlack(g: Graph, root: Node?, order: seq<Node>, node: Node)
    requires FixInv(g, root, order, node) && RedParent(g, node)
    ensures var p := g[node].parent; var gp := g[p].parent;
            && gp != null && gp in g && g[gp].color == Black && p != node && gp != p && gp != node
            && (g[gp].left == p) != (g[gp].right == p) && (g[p].left == node) != (g[p].right == node)
            && g[gp].bh > 0
  {
    var p := g[node].parent;
    assert Linked(g, root, order, node) && Linked(g, root, order, p);
    assert RedRule(g, p);
    assert Linked(g, root, order, g[p].parent);
    assert Balanced(g, g[p].parent);
  }

  /** Red uncle: parent and uncle turn black, the grandparent turns red. */
  ghost function Recolor(g: Graph, p: Node, u: Node, gp: Node): Graph
    requires p in g && u in g && gp in g
  {
    g[p := g[p].(color := Black, bh := g[p].bh + 1)]
     [u := g[u].(color := Black, bh := g[u].bh + 1)]
     [gp := g[gp].(color := Red)]
  }

  lemma ColorsDoNotAffectShape(g: Graph, g': Graph, root: Node?, order: seq<Node>)
    requires Shape(g, root, order) && g'.Keys == g.Keys
    requires forall n :: n in g ==> g'[n] == g[n].(color := g'[n].color, bh := g'[n].bh)
    ensures Shape(g', root, order)
  {
    forall n | n in g ensures Linked(g', root, order, n) { assert Linked(g, root, order, n); }
  }

  /** node sits under a red parent p with a red uncle u below the grandparent gp. */
  ghost predicate UncleCase(g: Graph, root: Node?, order: seq<Node>, node: Node, p: Node, u: Node, gp: Node) {
    && FixInv(g, root, order, node) && RedParent(g, node)
    && p == g[node].parent && gp == g[p].parent && gp in g && u in g && g[u].color == Red
    && u == (if g[gp].left == p then g[gp].right else g[gp].left)
  }

  lemma UncleDistinct(g: Graph, root: Node?, order: seq<Node>, node: Node, p: Node, u: Node, gp: Node)
    requires UncleCase(g, root, order, node, p, u, gp)
    ensures u != p && u != gp && p != gp && g[u].parent == gp && g[gp].hi - g[gp].lo > g[node].hi - g[node].lo
  {
    GrandparentIsBlack(g, root, order, node);
    assert Linked(g, root, order, node) && Linked(g, root, order, p) && Linked(g, root, order, gp);
  }

  lemma RecolorKeepsInv(g: Graph, root: Node?, order: seq<Node>, node: Node, p: Node, u: Node, gp: Node)
    requires UncleCase(g, root, order, node, p, u, gp)
    ensures FixInv(Recolor(g, p, u, gp), root, order, gp)
  {
    UncleDistinct(g, root, order, node, p, u, gp);
    GrandparentIsBlack(g, root, order, node);
    var g' := Recolor(g, p, u, gp);
    ColorsDoNotAffectShape(g, g', root, order);
    forall n | n in g ensures Balanced(g', n) {
      assert Linked(g, root, order, n) && Balanced(g, n);
      assert Balanced(g, p) && Balanced(g, u) && Balanced(g, gp);
    }
    forall n | n in g && n != gp ensures RedRule(g', n) {
      assert Linked(g, root, order, n);
      assert n != node ==> RedRule(g, n);
    }
  }

  /** Inner grandchild: rotating the parent away makes it an outer one, with the old parent as
      the new offender. */
  lemma InnerRotationKeepsInv(g: Graph, g': Graph, root: Node?, order: seq<Node>, node: Node, left: bool)
    requires FixInv(g, root, order, node) && RedParent(g, node)
    requires Lifted(g, g[node].parent, left) == node && Turned(g, g', g[node].parent, left)
    ensures FixInv(g', root, order, g[node].parent)
  {
    var p := g[node].parent;
    GrandparentIsBlack(g, root, order, node);
    RotateDistinct(g, root, order, p, left);
    RotationKeepsShape(g, g', root, root, order, p, left);
    assert Balanced(g, p) && Balanced(g, node) && Linked(g, root, order, node);
    forall n | n in g ensures Balanced(g', n) && (n != p ==> RedRule(g', n)) {
      assert Linked(g, root, order, n) && Balanced(g, n);
      assert n != node ==> RedRule(g, n);
    }
  }

  /** After the inner rotation the configuration is the outer one. */
  lemma InnerBecomesOuter(g: Graph, g': Graph, root: Node?, order: seq<Node>, node: Node, p: Node, gp: Node, left: bool)
    requires FixInv(g, root, order, node) && RedParent(g, node) && p == g[node].parent && gp == g[p].parent
    requires gp in g && Lifted(g, p, left) == node && Lifted(g, gp, !left) == p && Turned(g, g', p, left)
    ensures g'[p].parent == node && g'[node].color == Red && g'[node].parent == gp && gp in g'
    ensures Lifted(g', gp, !left) == node && Lifted(g', node, !left) == p
    ensures Lifted(g', gp, left) == Lifted(g, gp, left)
    ensures forall n :: n in g ==> g'[n].color == g[n].color
  {
    GrandparentIsBlack(g, root, order, node);
    RotateDistinct(g, root, order, p, left);
  }

  /** Outer grandchild with a black uncle: parent and grandparent exchange colours. */
  ghost function RecolorOuter(g: Graph, p: Node, gp: Node): Graph
    requires p in g && gp in g && g[gp].bh > 0
  {
    g[p := g[p].(color := Black, bh := g[p].bh + 1)][gp := g[gp].(color := Red, bh := g[gp].bh - 1)]
  }

  /** node is the outer grandchild of gp on the side that a `left` rotation of gp lifts, its
      uncle is black, and g' is what recolouring and that rotation make of g. */
  ghost predicate OuterCase(g: Graph, g': Graph, root: Node?, order: seq<Node>,
                            node: Node, p: Node, gp: Node, left: bool) {
    && FixInv(g, root, order, node) && RedParent(g, node)
    && p == g[node].parent && gp == g[p].parent && gp in g && g[gp].bh > 0
    && Lifted(g, gp, left) == p && Lifted(g, p, left) == node
    && (var u := Lifted(g, gp, !left); u != null && u in g ==> g[u].color == Black)
    && Turned(RecolorOuter(g, p, gp), g', gp, left)
  }

  lemma OuterRotationBalanced(g: Graph, g': Graph, root: Node?, order: seq<Node>,
                              node: Node, p: Node, gp: Node, left: bool, n: Node)
    requires OuterCase(g, g', root, order, node, p, gp, left) && n in g
    ensures Balanced(g', n)
  {
    GrandparentIsBlack(g, root, order, node);
    RotateDistinct(g, root, order, gp, left);
    assert Balanced(g, n) && Balanced(g, p) && Balanced(g, gp);
    assert Linked(g, root, order, p) && Linked(g, root, order, gp);
    if n != p && n != gp { assert Linked(g, root, order, n); }
  }

  lemma OuterRotationRedRule(g: Graph, g': Graph, root: Node?, order: seq<Node>,
                             node: Node, p: Node, gp: Node, left: bool, n: Node)
    requires OuterCase(g, g', root, order, node, p, gp, left) && n in g
    ensures RedRule(g', n)
  {
    GrandparentIsBlack(g, root, order, node);
    RotateDistinct(g, root, order, gp, left);
    assert Linked(g, root, order, n) && Linked(g, root, order, p) && Linked(g, root, order, gp);
    assert n != node ==> RedRule(g, n);
  }

  lemma OuterRotationFinishes(g: Graph, g': Graph, root: Node?, root': Node?, order: seq<Node>,
                              node: Node, p: Node, gp: Node, left: bool)
    requires OuterCase(g, g', root, order, node, p, gp, left)
    requires root' == (if root == gp then p else root)
    ensures RedBlack(g', root', order) && g'[p].color == Black
  {
    GrandparentIsBlack(g, root, order, node);
    var g1 := RecolorOuter(g, p, gp);
    ColorsDoNotAffectShape(g, g1, root, order);
    RotationKeepsShape(g1, g', root, root', order, gp, left);
    forall n | n in g ensures Balanced(g', n) && RedRule(g', n) {
      OuterRotationBalanced(g, g', root, order, node, p, gp, left, n);
      OuterRotationRedRule(g, g', root, order, node, p, gp, left, n);
    }
  }

  /** Blackening the root when no red node is left under a red parent. */
  ghost function BlackenRoot(g: Graph, root: Node): Graph
    requires root in g
  {
    g[root := g[root].(color := Black, bh := if g[root].color == Red then g[root].bh + 1 else g[root].bh)]
  }

  lemma BlackenRootFinishes(g: Graph, root: Node, order: seq<Node>, node: Node)
    requires FixInv(g, root, order, node) && !RedParent(g, node)
    ensures RedBlack(BlackenRoot(g, root), root, order)
  {
    var g' := BlackenRoot(g, root);
    ColorsDoNotAffectShape(g, g', root, order);
    forall n | n in g ensures Balanced(g', n) && RedRule(g', n) {
      assert Linked(g, root, order, n) && Balanced(g, n);
      assert n != node ==> RedRule(g, n);
    }
  }

  // ----- Attaching a leaf -----

  /** The empty child slot of y on the given side is where position k of the in-order sequence
      is, and no other slot is. */
  ghost predicate FreeSlot(g: Graph, order: seq<Node>, y: Node, k: int, left: bool) {
    && y in g && 0 <= k <= |order|
    && (forall i :: 0 <= i < |order| ==> order[i] in g)
    && (if left then g[y].left == null && g[y].idx == k && (k > 0 ==> g[order[k - 1]].right != null)
        else g[y].right == null && g[y].idx + 1 == k && (k < |order| ==> g[order[k]].left != null))
  }

  ghost function InsertAt(order: seq<Node>, k: int, node: Node): (r: seq<Node>)
    requires 0 <= k <= |order|
  {
    order[..k] + [node] + order[k..]
  }

  lemma InsertAtMultiset(order: seq<Node>, k: int, node: Node)
    requires 0 <= k <= |order|
    ensures multiset(InsertAt(order, k, node)) == multiset(order) + multiset{node}
  {
    assert order == order[..k] + order[k..];
  }

  /** Making room for one node at position k. */
  ghost function Shift(c: Cell, k: int): Cell {
    c.(lo := if c.lo > k then c.lo + 1 else c.lo,
       idx := if c.idx >= k then c.idx + 1 else c.idx,
       hi := if c.hi >= k then c.hi + 1 else c.hi)
  }

  ghost predicate Attached(g: Graph, g': Graph, y: Node, k: int, left: bool, node: Node)
    requires y in g && node !in g
  {
    && g'.Keys == g.Keys + {node}
    && g'[node] == Cell(y, null, null, Red, k, k, k + 1, 0)
    && g'[y] == (if left then Shift(g[y], k).(left := node) else Shift(g[y], k).(right := node))
    && (forall n :: n in g && n != y ==> g'[n] == Shift(g[n], k))
  }

  lemma AttachLinkedNear(g: Graph, g': Graph, root: Node?, order: seq<Node>, y: Node, k: int, left: bool, node: Node, n: Node)
    requires Shape(g, root, order) && FreeSlot(g, order, y, k, left)
    requires node !in g && Attached(g, g', y, k, left, node) && (n == y || n == node)
    ensures Linked(g', root, InsertAt(order, k, node), n)
  {
    assert Linked(g, root, order, y);
    assert y == order[g[y].idx] == InsertAt(order, k, node)[g'[y].idx];
  }

  lemma AttachLinkedFar(g: Graph, g': Graph, root: Node?, order: seq<Node>, y: Node, k: int, left: bool, node: Node, n: Node)
    requires Shape(g, root, order) && FreeSlot(g, order, y, k, left)
    requires node !in g && Attached(g, g', y, k, left, node) && n in g && n != y
    ensures Linked(g', root, InsertAt(order, k, node), n)
  {
    assert Linked(g, root, order, y) && Linked(g, root, order, n);
    assert n == order[g[n].idx] == InsertAt(order, k, node)[g'[n].idx];
  }

  lemma AttachOrder(g: Graph, g': Graph, root: Node?, order: seq<Node>, y: Node, k: int, left: bool, node: Node)
    requires Shape(g, root, order) && FreeSlot(g, order, y, k, left)
    requires node !in g && Attached(g, g', y, k, left, node)
    ensures root != null && root in g' && g'[root].parent == null && g'[root].lo == 0 && g'[root].hi == |order| + 1
    ensures var o := InsertAt(order, k, node); forall i :: 0 <= i < |o| ==> o[i] in g' && g'[o[i]].idx == i
  {
    assert Linked(g, root, order, y) && Linked(g, root, order, root);
    var o := InsertAt(order, k, node);
    forall i | 0 <= i < |o| ensures o[i] in g' && g'[o[i]].idx == i {
      if i < k { assert o[i] == order[i]; } else if i > k { assert o[i] == order[i - 1]; }
    }
  }

  lemma AttachKeepsShape(g: Graph, g': Graph, root: Node?, order: seq<Node>, y: Node, k: int, left: bool, node: Node)
    requires Shape(g, root, order) && FreeSlot(g, order, y, k, left)
    requires node !in g && Attached(g, g', y, k, left, node)
    ensures Shape(g', root, InsertAt(order, k, node))
  {
    AttachOrder(g, g', root, order, y, k, left, node);
    forall n | n in g' ensures Linked(g', root, InsertAt(order, k, node), n) {
      if n == y || n == node {
        AttachLinkedNear(g, g', root, order, y, k, left, node, n);
      } else {
        AttachLinkedFar(g, g', root, order, y, k, left, node, n);
      }
    }
  }

  lemma AttachKeepsInv(g: Graph, g': Graph, root: Node?, order: seq<Node>, y: Node, k: int, left: bool, node: Node)
    requires RedBlack(g, root, order) && FreeSlot(g, order, y, k, left)
    requires node !in g && Attached(g, g', y, k, left, node)
    ensures FixInv(g', root, InsertAt(order, k, node), node)
  {
    AttachKeepsShape(g, g', root, order, y, k, left, node);
    assert Linked(g, root, order, y);
    forall n | n in g' ensures Balanced(g', n) && (n != node ==> RedRule(g', n)) {
      if n != node { assert Linked(g, root, order, n) && Balanced(g, n) && RedRule(g, n); }
    }
  }

  /** Inserting at the upper bound of a key keeps a sequence sorted. */
  lemma InsertKeepsSorted(order: seq<Node>, k: int, node: Node, cmp: (Key, Key) -> int)
    requires TotalPreorder(cmp) && SortedBy(order, cmp) && 0 <= k <= |order|
    requires forall i :: 0 <= i < k ==> cmp(node.key, order[i].key) >= 0
    requires forall i :: k <= i < |order| ==> cmp(node.key, order[i].key) < 0
    ensures SortedBy(InsertAt(order, k, node), cmp)
  {
  }

  // ----- What the invariant means -----

  /** The in-order traversal, read off the child links alone. */
  ghost function InOrder(g: Graph, root: Node?, order: seq<Node>, x: Node?): seq<Node>
    requires Shape(g, root, order) && (x != null ==> x in g)
    decreases if x == null then 0 else g[x].hi - g[x].lo
  {
    if x == null then []
    else
      assert Linked(g, root, order, x);
      assert g[x].left != null ==> Linked(g, root, order, g[x].left);
      assert g[x].right != null ==> Linked(g, root, order, g[x].right);
      InOrder(g, root, order, g[x].left) + [x] + InOrder(g, root, order, g[x].right)
  }

  lemma {:induction false} InOrderIsInterval(g: Graph, root: Node?, order: seq<Node>, x: Node)
    requires Shape(g, root, order) && x in g && Linked(g, root, order, x)
    ensures InOrder(g, root, order, x) == order[g[x].lo..g[x].hi]
    decreases g[x].hi - g[x].lo
  {
    var l, r := g[x].left, g[x].right;
    if l != null {
      assert Linked(g, root, order, l);
      InOrderIsInterval(g, root, order, l);
    }
    if r != null {
      assert Linked(g, root, order, r);
      InOrderIsInterval(g, root, order, r);
    }
    IntervalSplits(order, g[x].lo, g[x].idx, g[x].hi);
  }

  lemma IntervalSplits(order: seq<Node>, lo: int, idx: int, hi: int)
    requires 0 <= lo <= idx < hi <= |order|
    ensures order[lo..hi] == order[lo..idx] + [order[idx]] + order[idx + 1..hi]
  {
  }

  /** The ghost sequence is the in-order traversal of the linked structure. */
  lemma OrderIsInOrder(g: Graph, root: Node?, order: seq<Node>)
    requires Shape(g, root, order)
    ensures InOrder(g, root, order, root) == order
  {
    if root != null {
      assert Linked(g, root, order, root);
      InOrderIsInterval(g, root, order, root);
    }
  }

  /** `path` (true for left) leads from x to a missing child. */
  ghost predicate LeafPath(g: Graph, x: Node?, path: seq<bool>) {
    if x == null then path == []
    else x in g && path != [] && LeafPath(g, if path[0] then g[x].left else g[x].right, path[1..])
  }

  ghost function BlackOn(g: Graph, x: Node?, path: seq<bool>): nat
    requires LeafPath(g, x, path)
  {
    if x == null then 0
    else (if g[x].color == Black then 1 else 0) + BlackOn(g, if path[0] then g[x].left else g[x].right, path[1..])
  }

  /** All paths from x to a missing child have the same number of black nodes. */
  lemma {:induction false} BlackHeightIsUniform(g: Graph, root: Node?, order: seq<Node>, x: Node?, path: seq<bool>)
    requires RedBlack(g, root, order) && LeafPath(g, x, path)
    ensures BlackOn(g, x, path) == Bh(g, x)
  {
    if x != null {
      assert Balanced(g, x);
      BlackHeightIsUniform(g, root, order, if path[0] then g[x].left else g[x].right, path[1..]);
    }
  }

  // ----- Height -----

  lemma SquareMonotone(p: nat, n: nat)
    requires p <= n
    ensures p * p <= n * n
  {
    assert p * p <= p * n <= n * n;
  }

  ghost function Height(g: Graph, root: Node?, order: seq<Node>, x: Node?): nat
    requires Shape(g, root, order) && (x != null ==> x in g)
    decreases if x == null then 0 else g[x].hi - g[x].lo
  {
    if x == null then 0
    else
      assert Linked(g, root, order, x);
      assert g[x].left != null ==> Linked(g, root, order, g[x].left);
      assert g[x].right != null ==> Linked(g, root, order, g[x].right);
      var l, r := Height(g, root, order, g[x].left), Height(g, root, order, g[x].right);
      1 + if l < r then r else l
  }

  lemma {:induction false} HeightByBlackHeight(g: Graph, root: Node?, order: seq<Node>, x: Node?)
    requires RedBlack(g, root, order) && (x != null ==> x in g)
    ensures Height(g, root, order, x) <= 2 * Bh(g, x) + (if x != null && g[x].color == Red then 1 else 0)
    ensures Pow2(Bh(g, x)) <= (if x == null then 1 else g[x].hi - g[x].lo + 1)
    decreases if x == null then 0 else g[x].hi - g[x].lo
  {
    if x != null {
      assert Linked(g, root, order, x) && Balanced(g, x);
      var l, r := g[x].left, g[x].right;
      if l != null { assert Linked(g, root, order, l) && RedRule(g, l); }
      if r != null { assert Linked(g, root, order, r) && RedRule(g, r); }
      HeightByBlackHeight(g, root, order, l);
      HeightByBlackHeight(g, root, order, r);
    }
  }

  /** A red-black tree of n nodes has height h with 2^h <= (n + 1)^2. */
  lemma HeightIsLogarithmic(g: Graph, root: Node?, order: seq<Node>)
    requires RedBlack(g, root, order)
    ensures Pow2(Height(g, root, order, root)) <= (|order| + 1) * (|order| + 1)
  {
    if root != null {
      HeightByBlackHeight(g, root, order, root);
      var b := Bh(g, root);
      Pow2Monotone(Height(g, root, order, root), 2 * b);
      Pow2Double(b);
      SquareMonotone(Pow2(b), |order| + 1);
    }
  }

  /** Comparing a key with a sorted sequence gives >0's, then 0's, then <0's. */
  ghost predicate Splits(order: seq<Node>, cmp: (Key, Key) -> int, key: Key) {
    forall i, j :: 0 <= i < j < |order| ==>
      && (cmp(key, order[j].key) >= 0 ==> cmp(key, order[i].key) >= 0)
      && (cmp(key, order[j].key) > 0 ==> cmp(key, order[i].key) > 0)
  }

  lemma SortedSplits(order: seq<Node>, cmp: (Key, Key) -> int, key: Key)
    requires TotalPreorder(cmp) && SortedBy(order, cmp)
    ensures Splits(order, cmp, key)
  {
  }

  class Tree {
    var root: Node?
    var count: nat
    ghost var order: seq<Node>
    ghost var g: Graph

    /** The mirror shows the real fields. */
    ghost predicate Mirrored()
      reads this, g.Keys
    {
      forall n {:trigger g[n]} :: n in g ==>
        g[n].parent == n.parent && g[n].left == n.left && g[n].right == n.right && g[n].color == n.color
    }

    ghost predicate Valid()
      reads this, g.Keys
    {
      Mirrored() && RedBlack(g, root, order) && count == |order|
    }

    constructor ()
      ensures Valid() && order == [] && g == map[]
    {
      root, count, order, g := null, 0, [], map[];
    }

    /** The real fields are one rotation ahead of the mirror. */
    ghost predicate Relinked(x: Node, left: bool)
      requires Rotatable(g, x, left)
      reads this, g.Keys
    {
      var y := Lifted(g, x, left);
      var b := Lifted(g, y, !left);
      && x.parent == y && y.parent == g[x].parent && x.color == g[x].color && y.color == g[y].color
      && (if left then x.left == g[x].left && x.right == b && y.left == x && y.right == g[y].right
          else x.right == g[x].right && x.left == b && y.right == x && y.left == g[y].left)
      && (forall n {:trigger g[n]} :: n in g && n != x && n != y ==>
            && n.left == (if g[n].left == x then y else g[n].left)
            && n.right == (if g[n].right == x then y else g[n].right)
            && n.parent == (if n == b then x else g[n].parent)
            && n.color == g[n].color)
    }

    ghost method MirrorRotation(x: Node, left: bool)
      requires Rotatable(g, x, left) && Relinked(x, left) && x != Lifted(g, x, left)
      modifies `g
      ensures Mirrored() && g.Keys == old(g.Keys) && Turned(old(g), g, x, left)
    {
      var g0, y := g, Lifted(g, x, left);
      g := map n | n in g0 ::
        g0[n].(parent := n.parent, left := n.left, right := n.right,
               lo := if n == y then g0[x].lo else if n == x && !left then g0[y].idx + 1 else g0[n].lo,
               hi := if n == y then g0[x].hi else if n == x && left then g0[y].idx else g0[n].hi);
    }

    method RotateLeft(x: Node)
      requires Mirrored() && RotationSite(g, root, x, true)
      modifies `root, `g, g.Keys`parent, g.Keys`left, g.Keys`right
      ensures Mirrored() && g.Keys == old(g.Keys) && Turned(old(g), g, x, true)
      ensures root == if old(root) == x then old(x.right) else old(root)
    {
      var y := x.right;
      x.right := y.left;
      if y.left != null { y.left.parent := x; }
      y.parent := x.parent;
      if x.parent == null {
        root := y;
      } else if x == x.parent.left {
        x.parent.left := y;
      } else {
        x.parent.right := y;
      }
      y.left := x;
      x.parent := y;
      MirrorRotation(x, true);
    }

    method RotateRight(y: Node)
      requires Mirrored() && RotationSite(g, root, y, false)
      modifies `root, `g, g.Keys`parent, g.Keys`left, g.Keys`right
      ensures Mirrored() && g.Keys == old(g.Keys) && Turned(old(g), g, y, false)
      ensures root == if old(root) == y then old(y.left) else old(root)
    {
      var x := y.left;
      y.left := x.right;
      if x.right != null { x.right.parent := y; }
      x.parent := y.parent;
      if y.parent == null {
        root := x;
      } else if y == y.parent.right {
        y.parent.right := x;
      } else {
        y.parent.left := x;
      }
      x.right := y;
      y.parent := x;
      MirrorRotation(y, false);
    }
  
    /** rb_set_red and rb_set_black; the caller supplies the mirrored black height. */
    method SetColor(n: Node, c: Color, ghost bh: nat)
      requires Mirrored() && n in g
      modifies `g, n`color
      ensures Mirrored() && g == old(g)[n := old(g)[n].(color := c, bh := bh)]
    {
      n.color := c;
      g := g[n := g[n].(color := c, bh := bh)];
    }

    method RecolorThree(p: Node, u: Node, gp: Node)
      requires Mirrored() && p in g && u in g && gp in g && p != u && p != gp && u != gp
      modifies `g, p`color, u`color, gp`color
      ensures Mirrored() && g == Recolor(old(g), p, u, gp)
    {
      SetColor(p, Black, g[p].bh + 1);
      SetColor(u, Black, g[u].bh + 1);
      SetColor(gp, Red, g[gp].bh);
    }

    method RecolorTwo(p: Node, gp: Node)
      requires Mirrored() && p in g && gp in g && p != gp && g[gp].bh > 0
      modifies `g, p`color, gp`color
      ensures Mirrored() && g == RecolorOuter(old(g), p, gp)
    {
      SetColor(p, Black, g[p].bh + 1);
      SetColor(gp, Red, g[gp].bh - 1);
    }

    method SetRootBlack()
      requires Mirrored() && root != null && root in g
      modifies `g, root`color
      ensures Mirrored() && g == BlackenRoot(old(g), root)
    {
      SetColor(root, Black, if g[root].color == Red then g[root].bh + 1 else g[root].bh);
    }

    /** Outer grandchild under a black uncle; `left` says which way the grandparent turns. */
    method TurnOuter(node: Node, left: bool)
      requires Mirrored() && FixInv(g, root, order, node) && RedParent(g, node)
      requires var p := g[node].parent; var gp := g[p].parent;
               && gp != null && gp in g && Lifted(g, gp, left) == p && Lifted(g, p, left) == node
               && (var u := Lifted(g, gp, !left); u != null && u in g ==> g[u].color == Black)
      modifies `root, `g, g.Keys
      ensures Mirrored() && RedBlack(g, root, order) && g.Keys == old(g.Keys)
      ensures node in g && g[node].color == Red && !RedParent(g, node)
    {
      GrandparentIsBlack(g, root, order, node);
      ghost var g0, root0 := g, root;
      var p := node.parent;
      var gp := p.parent;
      RecolorTwo(p, gp);
      ColorsDoNotAffectShape(g0, g, root, order);
      ShapeGivesSite(g, root, order, gp, left);
      if left {
        RotateLeft(gp);
      } else {
        RotateRight(gp);
      }
      OuterRotationFinishes(g0, g, root0, root, order, node, p, gp, left);
    }

    /** Inner grandchild: turn the parent the other way; it becomes the offender. */
    method TurnInner(node: Node, left: bool) returns (p: Node)
      requires Mirrored() && FixInv(g, root, order, node) && RedParent(g, node)
      requires Lifted(g, g[node].parent, left) == node
      modifies `root, `g, g.Keys
      ensures p == old(node.parent) && Mirrored() && FixInv(g, root, order, p) && g.Keys == old(g.Keys)
      ensures Turned(old(g), g, p, left) && root == old(root)
    {
      p := node.parent;
      GrandparentIsBlack(g, root, order, node);
      ShapeGivesSite(g, root, order, p, left);
      ghost var g0 := g;
      if left {
        RotateLeft(p);
      } else {
        RotateRight(p);
      }
      InnerRotationKeepsInv(g0, g, root, order, node, left);
    }

    /** One round of the fix-up loop; `left` says that the parent is a left child.  Either the
        violation moves up to a larger subtree or it is gone. */
    method FixStep(start: Node, left: bool) returns (node: Node)
      requires Mirrored() && FixInv(g, root, order, start) && RedParent(g, start)
      requires var gp := g[g[start].parent].parent;
               gp != null && gp in g && (g[gp].left == g[start].parent <==> left)
      modifies `root, `g, g.Keys
      ensures Mirrored() && FixInv(g, root, order, node) && g.Keys == old(g.Keys)
      ensures RedParent(g, node) ==> g[node].hi - g[node].lo > old(g[start].hi - g[start].lo)
    {
      GrandparentIsBlack(g, root, order, start);
      node := start;
      var p := node.parent;
      var gp := p.parent;
      assert Linked(g, root, order, gp);
      var y := if left then gp.right else gp.left;
      if y != null && y.color == Red {
        RecolorKeepsInv(g, root, order, node, p, y, gp);
        UncleDistinct(g, root, order, node, p, y, gp);
        RecolorThree(p, y, gp);
        node := gp;
      } else {
        if node == (if left then p.right else p.left) {
          ghost var g0 := g;
          node := TurnInner(node, left);
          InnerBecomesOuter(g0, g, root, order, start, p, gp, left);
        }
        TurnOuter(node, !left);
      }
    }

    /** The fix-up loop of rb_insert. */
    method FixUp(start: Node)
      requires Mirrored() && FixInv(g, root, order, start)
      modifies `root, `g, g.Keys
      ensures Mirrored() && RedBlack(g, root, order) && g.Keys == old(g.Keys)
    {
      var node := start;
      while node != root && node.parent != null && node.parent.color == Red
        invariant Mirrored() && FixInv(g, root, order, node) && g.Keys == old(g.Keys)
        decreases if RedParent(g, node) then 1 + |order| - (g[node].hi - g[node].lo) else 0
      {
        assert Linked(g, root, order, node);
        GrandparentIsBlack(g, root, order, node);
        node := FixStep(node, node.parent == node.parent.parent.left);
      }
      assert Linked(g, root, order, node);
      BlackenRootFinishes(g, root, order, node);
      SetRootBlack();
    }
  
    // ----- Insertion -----

    /** The descent of rb_insert: y is the node to hang the new leaf from, and k the upper bound
        of the key in the in-order sequence. */
    method FindParent(key: Key, cmp: (Key, Key) -> int) returns (y: Node?, ghost k: nat)
      requires Mirrored() && Shape(g, root, order) && Splits(order, cmp, key)
      ensures k <= |order|
      ensures forall i :: 0 <= i < k ==> cmp(key, order[i].key) >= 0
      ensures forall i :: k <= i < |order| ==> cmp(key, order[i].key) < 0
      ensures y == null <==> root == null
      ensures y != null ==> FreeSlot(g, order, y, k, cmp(key, y.key) < 0)
    {
      y := null;
      var x := root;
      ghost var a, b := 0, |order|;
      while x != null
        invariant 0 <= a <= b <= |order|
        invariant x == null ==> a == b
        invariant x != null ==> x in g && g[x].lo == a && g[x].hi == b
        invariant forall i :: 0 <= i < a ==> cmp(key, order[i].key) >= 0
        invariant forall i :: b <= i < |order| ==> cmp(key, order[i].key) < 0
        invariant y == null ==> x == root && a == 0 && b == |order|
        invariant y != null ==> y in g && 0 <= g[y].idx < |order| && order[g[y].idx] == y
        invariant y != null ==>
          if cmp(key, y.key) < 0 then x == g[y].left && b == g[y].idx else x == g[y].right && a == g[y].idx + 1
        invariant a > 0 && order[a - 1] != y ==> g[order[a - 1]].right != null
        invariant b < |order| && order[b] != y ==> g[order[b]].left != null
        decreases b - a
      {
        assert Linked(g, root, order, x);
        y := x;
        if cmp(key, x.key) < 0 {
          b := g[x].idx;
          x := x.left;
        } else {
          a := g[x].idx + 1;
          x := x.right;
        }
      }
      k := a;
    }

    ghost method MirrorLeaf(node: Node, y: Node, left: bool, k: nat)
      requires node !in g && y in g && 0 <= k <= |order|
      requires node.left == null && node.right == null && node.color == Red && node.parent == y
      requires y.parent == g[y].parent && y.color == g[y].color
      requires if left then y.left == node && y.right == g[y].right else y.left == g[y].left && y.right == node
      requires forall n {:trigger g[n]} :: n in g && n != y ==>
        g[n].parent == n.parent && g[n].left == n.left && g[n].right == n.right && g[n].color == n.color
      modifies `g, `order
      ensures Mirrored() && Attached(old(g), g, y, k, left, node) && order == InsertAt(old(order), k, node)
    {
      var g0 := g;
      g := (map n | n in g0 :: if n != y then Shift(g0[n], k)
                               else if left then Shift(g0[y], k).(left := node)
                               else Shift(g0[y], k).(right := node))
           [node := Cell(y, null, null, Red, k, k, k + 1, 0)];
      order := InsertAt(order, k, node);
    }

    /** Hanging the red leaf `node` from y. */
    method Attach(node: Node, y: Node, left: bool, ghost k: nat)
      requires Mirrored() && node !in g && FreeSlot(g, order, y, k, left)
      modifies this, g.Keys, node
      ensures Mirrored() && Attached(old(g), g, y, k, left, node)
      ensures order == InsertAt(old(order), k, node)
      ensures root == old(root) && count == old(count) + 1
    {
      node.left, node.right, node.color, node.parent := null, null, Red, y;
      if left {
        y.left := node;
      } else {
        y.right := node;
      }
      count := count + 1;
      MirrorLeaf(node, y, left, k);
    }

    method PlantRoot(node: Node)
      requires Shape(g, root, order) && root == null && count == 0
      modifies this, node
      ensures Mirrored() && order == [node] && count == 1 && root == node && old(g) == map[]
      ensures g.Keys == {node} && FixInv(g, root, order, node)
    {
      NodesAreInOrder(g, root, order);
      node.left, node.right, node.color, node.parent := null, null, Red, null;
      root := node;
      count := count + 1;
      order := [node];
      g := map[node := Cell(null, null, null, Red, 0, 0, 1, 0)];
    }

    /** rb_insert: the tree stays a red-black tree, and the in-order sequence gains the node
        right after all elements not greater than it. */
    method Insert(node: Node, cmp: (Key, Key) -> int) returns (ghost k: nat)
      requires Valid() && TotalPreorder(cmp) && SortedBy(order, cmp) && node !in g
      modifies this, g.Keys, node
      ensures Valid() && SortedBy(order, cmp)
      ensures g.Keys == old(g.Keys) + {node} && count == old(count) + 1
      ensures k <= |old(order)| && order == InsertAt(old(order), k, node)
      ensures forall i :: 0 <= i < k ==> cmp(node.key, old(order)[i].key) >= 0
      ensures forall i :: k <= i < |old(order)| ==> cmp(node.key, old(order)[i].key) < 0
    {
      var y;
      SortedSplits(order, cmp, node.key);
      y, k := FindParent(node.key, cmp);
      InsertKeepsSorted(order, k, node, cmp);
      if y == null {
        PlantRoot(node);
      } else {
        ghost var g0, order0 := g, order;
        Attach(node, y, cmp(node.key, y.key) < 0, k);
        AttachKeepsInv(g0, g, root, order0, y, k, cmp(node.key, y.key) < 0, node);
      }
      FixUp(node);
    }
  
    /** Any sequence of insertions into an empty tree. */
    method InsertAll(nodes: seq<Node>, cmp: (Key, Key) -> int)
      requires Valid() && order == [] && g == map[] && TotalPreorder(cmp)
      requires forall i, j :: 0 <= i < j < |nodes| ==> nodes[i] != nodes[j]
      modifies this, nodes
      ensures Valid() && SortedBy(order, cmp)
      ensures multiset(order) == multiset(nodes) && count == |nodes|
    {
      for i := 0 to |nodes|
        invariant Valid() && SortedBy(order, cmp) && |order| == i
        invariant multiset(order) == multiset(nodes[..i])
        invariant forall n :: n in g ==> n in nodes[..i]
      {
        ghost var before := order;
        ghost var k := Insert(nodes[i], cmp);
        InsertAtMultiset(before, k, nodes[i]);
        assert nodes[..i + 1] == nodes[..i] + [nodes[i]];
      }
      assert nodes[..|nodes|] == nodes;
    }

    // ----- Search and walks -----

    /** rb_search: it finds an equal node iff there is one, in at most as many steps as the tree
        is high. */
    method Search(key: Key, cmp: (Key, Key) -> int) returns (r: Node?, ghost steps: nat)
      requires Valid() && TotalPreorder(cmp) && SortedBy(order, cmp)
      ensures r != null ==> r in g && cmp(key, r.key) == 0
      ensures r == null ==> forall n :: n in g ==> cmp(key, n.key) != 0
      ensures Pow2(steps) <= (count + 1) * (count + 1)
    {
      SortedSplits(order, cmp, key);
      HeightIsLogarithmic(g, root, order);
      r, steps := SearchLoop(key, cmp);
      Pow2Monotone(steps, Height(g, root, order, root));
      if r == null {
        forall n | n in g ensures cmp(key, n.key) != 0 {
          assert Linked(g, root, order, n);
        }
      }
    }

    method SearchLoop(key: Key, cmp: (Key, Key) -> int) returns (r: Node?, ghost steps: nat)
      requires Mirrored() && Shape(g, root, order) && Splits(order, cmp, key)
      ensures r != null ==> r in g && cmp(key, r.key) == 0
      ensures r == null ==> forall i :: 0 <= i < |order| ==> cmp(key, order[i].key) != 0
      ensures steps <= Height(g, root, order, root)
    {
      var x := root;
      ghost var a, b := 0, |order|;
      steps := 0;
      while x != null
        invariant 0 <= a <= b <= |order|
        invariant x == null ==> a == b
        invariant x != null ==> x in g && g[x].lo == a && g[x].hi == b
        invariant forall i :: 0 <= i < a || b <= i < |order| ==> cmp(key, order[i].key) != 0
        invariant steps + Height(g, root, order, x) <= Height(g, root, order, root)
        decreases b - a
      {
        assert Linked(g, root, order, x);
        steps := steps + 1;
        var c := cmp(key, x.key);
        if c == 0 { return x, steps; }
        if c < 0 {
          b := g[x].idx;
          x := x.left;
        } else {
          a := g[x].idx + 1;
          x := x.right;
        }
      }
      r := null;
    }

    method Min() returns (x: Node?)
      requires Valid()
      ensures x == if order == [] then null else order[0]
    {
      x := root;
      while x != null && x.left != null
        invariant order == [] ==> x == null
        invariant order != [] ==> x != null && x in g && g[x].lo == 0
        decreases if x == null then 0 else g[x].hi
      {
        assert Linked(g, root, order, x) && Linked(g, root, order, x.left);
        x := x.left;
      }
      if x != null { assert Linked(g, root, order, x); }
    }

    method Max() returns (x: Node?)
      requires Valid()
      ensures x == if order == [] then null else order[|order| - 1]
    {
      x := root;
      while x != null && x.right != null
        invariant order == [] ==> x == null
        invariant order != [] ==> x != null && x in g && g[x].hi == |order|
        decreases if x == null then 0 else |order| - g[x].lo
      {
        assert Linked(g, root, order, x) && Linked(g, root, order, x.right);
        x := x.right;
      }
      if x != null { assert Linked(g, root, order, x); }
    }

    /** rb_next: the in-order successor. */
    method Next(start: Node) returns (r: Node?)
      requires Valid() && start in g
      ensures 0 <= g[start].idx < |order| && order[g[start].idx] == start
      ensures r == if g[start].idx + 1 < |order| then order[g[start].idx + 1] else null
    {
      var x := start;
      assert Linked(g, root, order, x);
      ghost var i := g[x].idx;
      if x.right != null {
        x := x.right;
        assert Linked(g, root, order, x);
        while x.left != null
          invariant x in g && g[x].lo == i + 1 && Linked(g, root, order, x)
          decreases g[x].hi
        {
          x := x.left;
          assert Linked(g, root, order, x);
        }
        return x;
      }
      var y := x.parent;
      while y != null && x == y.right
        invariant x in g && g[x].hi == i + 1 && y == g[x].parent && Linked(g, root, order, x)
        invariant y != null ==> y in g && Linked(g, root, order, y)
        decreases |order| - (g[x].hi - g[x].lo)
      {
        x := y;
        y := y.parent;
        if y != null { assert Linked(g, root, order, y); }
      }
      return y;
    }

    /** rb_prev: the in-order predecessor. */
    method Prev(start: Node) returns (r: Node?)
      requires Valid() && start in g
      ensures 0 <= g[start].idx < |order| && order[g[start].idx] == start
      ensures r == if g[start].idx > 0 then order[g[start].idx - 1] else null
    {
      var x := start;
      assert Linked(g, root, order, x);
      ghost var i := g[x].idx;
      if x.left != null {
        x := x.left;
        assert Linked(g, root, order, x);
        while x.right != null
          invariant x in g && g[x].hi == i && Linked(g, root, order, x)
          decreases |order| - g[x].lo
        {
          x := x.right;
          assert Linked(g, root, order, x);
        }
        return x;
      }
      var y := x.parent;
      while y != null && x == y.left
        invariant x in g && g[x].lo == i && y == g[x].parent && Linked(g, root, order, x)
        invariant y != null ==> y in g && Linked(g, root, order, y)
        decreases |order| - (g[x].hi - g[x].lo)
      {
        x := y;
        y := y.parent;
        if y != null { assert Linked(g, root, order, y); }
      }
      return y;
    }

    /** From rb_min by rb_next: every node once, in order, then NULL; rb_prev undoes each step. */
    method Walk() returns (visited: seq<Node>)
      requires Valid()
      ensures visited == order
      ensures forall i, j :: 0 <= i < j < |visited| ==> visited[i] != visited[j]
      ensures forall n :: n in visited <==> n in g
    {
      visited := [];
      var x := Min();
      while x != null
        invariant |visited| <= |order| && visited == order[..|visited|]
        invariant x == if |visited| < |order| then order[|visited|] else null
        decreases |order| - |visited|
      {
        var y := Next(x);
        if y != null {
          var back := Prev(y);
          assert back == x;
        }
        visited := visited + [x];
        x := y;
      }
      forall n | n in g ensures n in visited { assert Linked(g, root, order, n); }
    }
  }
}
