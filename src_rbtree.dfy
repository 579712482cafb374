// src/rbtree.c: the red-black tree whose rotations take the child being
// lifted, whose fixups recurse, and whose erase copies the successor's key
// into the erased node.  Every method works on the node store of an
// `RbTree`; its ghost `tree` follows each step, so the contracts speak of
// the tree value.

module SrcRbtree {
  import opened RbSpec
  import opened RbPaths
  import opened RbInvariants
  import opened RbFixup
  import opened RbOps
  import opened RbNodes

  // ---------------------------------------------------------------------
  // Rotations and colours
  // ---------------------------------------------------------------------

  /** `rotate_L`: `node`, the right child of its parent, is lifted above
      that parent, which becomes its left child.  The root moves to `node`
      exactly when the parent was the root; `node`'s old left subtree
      changes sides, and its top's `parent` is written even when it is
      `nil`. */
  method RotateL(t: RbTree, node: nat, ghost p: seq<Dir>)
    requires t.Wellformed() && ValidPath(t.tree, p) && p != [] && Last(p) == R
    requires Sub(t.tree, p).Node? && Sub(t.tree, p).id == node
    modifies t
    ensures t.Wellformed() && t.tree == RotateAt(old(t.tree), Parent(p), L)
    ensures t.root == (if Parent(p) == [] then node else old(t.root))
    ensures |t.nodes| == |old(t.nodes)| && StoreFrame(old(t.nodes), t.nodes, old(Ids(t.tree)))
  {
    ghost var t0 := t.tree;
    ghost var n0 := t.nodes;
    ghost var pp := Parent(p);
    SubParent(t0, p);
    Nav(t0, p, n0);
    Nav(t0, pp, n0);
    RotStore(t0, pp, L, n0);
    var nodes := t.nodes;
    var parentNode := nodes[node].parent;
    var grandParentNode := nodes[parentNode].parent;
    var leftNode := nodes[node].left;
    if parentNode == t.root {
      t.root := node;
    } else if nodes[grandParentNode].left == parentNode {
      nodes := nodes[grandParentNode := nodes[grandParentNode].(left := node)];
    } else {
      nodes := nodes[grandParentNode := nodes[grandParentNode].(right := node)];
    }
    nodes := nodes[node := nodes[node].(parent := grandParentNode)];
    nodes := nodes[parentNode := nodes[parentNode].(parent := node)];
    nodes := nodes[node := nodes[node].(left := parentNode)];
    nodes := nodes[parentNode := nodes[parentNode].(right := leftNode)];
    nodes := nodes[leftNode := nodes[leftNode].(parent := parentNode)];
    assert nodes == RotWritesOf(t0, pp, L, n0);
    t.nodes := nodes;
    t.tree := RotateAt(t0, pp, L);
  }

  /** `rotate_R`: `node`, the left child of its parent, is lifted above
      that parent, which becomes its right child.  The old right subtree's
      `parent` is written before the parent's `left`. */
  method RotateR(t: RbTree, node: nat, ghost p: seq<Dir>)
    requires t.Wellformed() && ValidPath(t.tree, p) && p != [] && Last(p) == L
    requires Sub(t.tree, p).Node? && Sub(t.tree, p).id == node
    modifies t
    ensures t.Wellformed() && t.tree == RotateAt(old(t.tree), Parent(p), R)
    ensures t.root == (if Parent(p) == [] then node else old(t.root))
    ensures |t.nodes| == |old(t.nodes)| && StoreFrame(old(t.nodes), t.nodes, old(Ids(t.tree)))
  {
    ghost var t0 := t.tree;
    ghost var n0 := t.nodes;
    ghost var pp := Parent(p);
    SubParent(t0, p);
    Nav(t0, p, n0);
    Nav(t0, pp, n0);
    RotStore(t0, pp, R, n0);
    var nodes := t.nodes;
    var parentNode := nodes[node].parent;
    var grandParentNode := nodes[parentNode].parent;
    var rightNode := nodes[node].right;
    if parentNode == t.root {
      t.root := node;
    } else if nodes[grandParentNode].left == parentNode {
      nodes := nodes[grandParentNode := nodes[grandParentNode].(left := node)];
    } else {
      nodes := nodes[grandParentNode := nodes[grandParentNode].(right := node)];
    }
    nodes := nodes[node := nodes[node].(parent := grandParentNode)];
    nodes := nodes[parentNode := nodes[parentNode].(parent := node)];
    nodes := nodes[node := nodes[node].(right := parentNode)];
    ghost var m := nodes;
    nodes := nodes[rightNode := nodes[rightNode].(parent := parentNode)];
    nodes := nodes[parentNode := nodes[parentNode].(left := rightNode)];
    UpdatesCommute(m, rightNode, m[rightNode].(parent := parentNode), parentNode, m[parentNode].(left := rightNode));
    assert nodes == RotWritesOf(t0, pp, R, n0);
    t.nodes := nodes;
    t.tree := RotateAt(t0, pp, R);
  }

  /** `exchange_color`: the two nodes swap colours; every node stays where
      it was. */
  method ExchangeColor(t: RbTree, node1: nat, node2: nat, ghost p1: seq<Dir>, ghost p2: seq<Dir>)
    requires t.Wellformed() && p1 != p2
    requires ValidPath(t.tree, p1) && Sub(t.tree, p1).Node? && Sub(t.tree, p1).id == node1
    requires ValidPath(t.tree, p2) && Sub(t.tree, p2).Node? && Sub(t.tree, p2).id == node2
    modifies t
    ensures t.Wellformed() && t.tree == Exchange(old(t.tree), p1, p2) && t.root == old(t.root)
    ensures ColorOf(Sub(t.tree, p1)) == old(ColorOf(Sub(t.tree, p2)))
    ensures ColorOf(Sub(t.tree, p2)) == old(ColorOf(Sub(t.tree, p1)))
    ensures |t.nodes| == |old(t.nodes)| && StoreFrame(old(t.nodes), t.nodes, old(Ids(t.tree)))
  {
    ghost var t0 := t.tree;
    Nav(t0, p1, t.nodes);
    Nav(t0, p2, t.nodes);
    ExchangeKeeps(t0, p1, p2, p1);
    ExchangeKeeps(t0, p1, p2, p2);
    var tmpColor := ColorCode(t.nodes[node1].color);
    RecolorKeeps(t0, p1, t.nodes[node2].color, p2);
    Paint(t, node1, t.nodes[node2].color, p1);
    Paint(t, node2, if tmpColor == ColorCode(Black) then Black else Red, p2);
  }

  // ---------------------------------------------------------------------
  // Insert
  // ---------------------------------------------------------------------

  /** `rbtree_insert_fixup`: from a tree whose only defect is the RED node
      `node` (at `p`) under a RED parent, or a RED root, the recursion
      restores every colour invariant.  Keys and the set of nodes are
      unchanged. */
  method InsertFixup(t: RbTree, node: nat, ghost p: seq<Dir>)
    requires t.Wellformed() && InsertFixInv(t.tree, p) && Sub(t.tree, p).id == node
    modifies t
    ensures t.Wellformed() && IsRB(t.tree)
    ensures InOrder(t.tree) == old(InOrder(t.tree)) && Ids(t.tree) == old(Ids(t.tree))
    ensures |t.nodes| == |old(t.nodes)| && StoreFrame(old(t.nodes), t.nodes, old(Ids(t.tree)))
    decreases |p|, 1
  {
    ghost var t0 := t.tree;
    Nav(t0, p, t.nodes);
    if node == t.root {
      InsertFixRoot(t0);
      Paint(t, node, Black, p);
      return;
    }
    ghost var pp := Parent(p);
    SubParent(t0, p);
    Nav(t0, pp, t.nodes);
    IdsReplace(t0, pp, Leaf);
    SidesDiffer(Sub(t0, pp));
    var parentNode := t.nodes[node].parent;
    var isLeftNode := node == t.nodes[parentNode].left;
    if t.nodes[parentNode].color == Black {
      InsertFixBlackParent(t0, p);
      return;
    }
    InsertRedParent(t, node, parentNode, isLeftNode, p);
  }

  /** The part of `rbtree_insert_fixup` after the parent is found RED:
      look up the grandparent and the uncle, then recolour (case 1) or
      restructure (cases 2 and 3). */
  method InsertRedParent(t: RbTree, node: nat, parentNode: nat, isLeftNode: bool, ghost p: seq<Dir>)
    requires t.Wellformed() && InsertFixInv(t.tree, p) && p != [] && Sub(t.tree, p).id == node
    requires Sub(t.tree, Parent(p)).Node? && Sub(t.tree, Parent(p)).id == parentNode
    requires Sub(t.tree, Parent(p)).c == Red && (isLeftNode <==> Last(p) == L)
    modifies t
    ensures t.Wellformed() && IsRB(t.tree)
    ensures InOrder(t.tree) == old(InOrder(t.tree)) && Ids(t.tree) == old(Ids(t.tree))
    ensures |t.nodes| == |old(t.nodes)| && StoreFrame(old(t.nodes), t.nodes, old(Ids(t.tree)))
    decreases |p|, 0
  {
    ghost var t0 := t.tree;
    InsertFixRedParent(t0, p);
    PathTwo(p);
    ghost var pp := Parent(p);
    ghost var gp := Parent(pp);
    ghost var up := Sibling(pp);
    SubParent(t0, pp);
    Nav(t0, pp, t.nodes);
    Nav(t0, gp, t.nodes);
    Nav(t0, up, t.nodes);
    IdsReplace(t0, gp, Leaf);
    SidesDiffer(Sub(t0, gp));
    var grandParentNode := t.nodes[parentNode].parent;
    var isLeftParentNode := parentNode == t.nodes[grandParentNode].left;
    var uncleNode;
    if isLeftParentNode {
      uncleNode := t.nodes[grandParentNode].right;
    } else {
      uncleNode := t.nodes[grandParentNode].left;
    }
    if t.nodes[uncleNode].color == Red {
      InsertFixRecolor(t0, p);
      InsertRecolor(t, parentNode, uncleNode, grandParentNode, p);
      InsertFixup(t, grandParentNode, gp);
      return;
    }
    InsertRestructure(t, node, parentNode, isLeftNode, isLeftParentNode, p);
  }

  /** Case 1 of `rbtree_insert_fixup` (the uncle is RED): parent and uncle
      are painted BLACK and the grandparent RED, which moves the defect up
      to the grandparent. */
  method InsertRecolor(t: RbTree, parentNode: nat, uncleNode: nat, grandParentNode: nat, ghost p: seq<Dir>)
    requires t.Wellformed() && |p| >= 2 && ValidPath(t.tree, p)
    requires Sub(t.tree, Parent(p)).Node? && Sub(t.tree, Parent(p)).id == parentNode
    requires Sub(t.tree, Sibling(Parent(p))).Node? && Sub(t.tree, Sibling(Parent(p))).id == uncleNode
    requires Sub(t.tree, Parent(Parent(p))).Node? && Sub(t.tree, Parent(Parent(p))).id == grandParentNode
    modifies t
    ensures t.Wellformed()
    ensures t.tree == RecolorAt(RecolorAt(RecolorAt(old(t.tree), Parent(p), Black), Sibling(Parent(p)), Black),
                                Parent(Parent(p)), Red)
    ensures Sub(t.tree, Parent(Parent(p))).Node? && Sub(t.tree, Parent(Parent(p))).id == grandParentNode
    ensures |t.nodes| == |old(t.nodes)| && StoreFrame(old(t.nodes), t.nodes, old(Ids(t.tree)))
  {
    ghost var t0 := t.tree;
    ghost var pp := Parent(p);
    ghost var gp := Parent(pp);
    ghost var up := Sibling(pp);
    SubParent(t0, p);
    SubParent(t0, pp);
    PathTwo(p);
    SubAppend(t0, gp, Flip(Last(pp)));
    RecolorKeeps(t0, pp, Black, up);
    RecolorKeeps(t0, pp, Black, gp);
    Paint(t, parentNode, Black, pp);
    RecolorKeeps(t.tree, up, Black, gp);
    Paint(t, uncleNode, Black, up);
    RecolorKeeps(t.tree, gp, Red, gp);
    Paint(t, grandParentNode, Red, gp);
  }

  /** Cases 2 and 3 of `rbtree_insert_fixup` (the uncle is BLACK): one
      rotation when node and parent lie on a line, two when they form a
      triangle, then the node lifted to the grandparent's place is painted
      BLACK and the old grandparent RED.  The tree is valid afterwards. */
  method InsertRestructure(t: RbTree, node: nat, parentNode: nat, isLeftNode: bool, isLeftParentNode: bool,
                           ghost p: seq<Dir>)
    requires t.Wellformed() && InsertFixInv(t.tree, p) && |p| >= 2 && Sub(t.tree, p).id == node
    requires Sub(t.tree, Parent(p)).Node? && Sub(t.tree, Parent(p)).id == parentNode
    requires ColorOf(Sub(t.tree, Parent(p))) == Red && ColorOf(Sub(t.tree, Sibling(Parent(p)))) == Black
    requires isLeftNode <==> Last(p) == L
    requires isLeftParentNode <==> Last(Parent(p)) == L
    modifies t
    ensures t.Wellformed() && IsRB(t.tree)
    ensures InOrder(t.tree) == old(InOrder(t.tree)) && Ids(t.tree) == old(Ids(t.tree))
    ensures |t.nodes| == |old(t.nodes)| && StoreFrame(old(t.nodes), t.nodes, old(Ids(t.tree)))
  {
    if isLeftParentNode {
      if isLeftNode {
        InsertLine(t, parentNode, isLeftParentNode, p);
      } else {
        InsertTriangle(t, node, isLeftParentNode, p);
      }
    } else {
      if isLeftNode {
        InsertTriangle(t, node, isLeftParentNode, p);
      } else {
        InsertLine(t, parentNode, isLeftParentNode, p);
      }
    }
  }

  /** Case 3 of `rbtree_insert_fixup`: node and parent lie on one line;
      the parent is lifted over the grandparent and the two swap colours. */
  method InsertLine(t: RbTree, parentNode: nat, isLeftParentNode: bool, ghost p: seq<Dir>)
    requires t.Wellformed() && InsertFixInv(t.tree, p) && |p| >= 2
    requires Sub(t.tree, Parent(p)).Node? && Sub(t.tree, Parent(p)).id == parentNode
    requires ColorOf(Sub(t.tree, Parent(p))) == Red && ColorOf(Sub(t.tree, Sibling(Parent(p)))) == Black
    requires Last(p) == Last(Parent(p)) && (isLeftParentNode <==> Last(Parent(p)) == L)
    modifies t
    ensures t.Wellformed() && IsRB(t.tree)
    ensures InOrder(t.tree) == old(InOrder(t.tree)) && Ids(t.tree) == old(Ids(t.tree))
    ensures |t.nodes| == |old(t.nodes)| && StoreFrame(old(t.nodes), t.nodes, old(Ids(t.tree)))
  {
    ghost var t0 := t.tree;
    ghost var pp := Parent(p);
    ghost var gp := Parent(pp);
    InsertFixRedParent(t0, p);
    PathTwo(p);
    InsertFixLineSrc(t0, p);
    if isLeftParentNode {
      RotateSub(t0, gp, R);
      RotateR(t, parentNode, pp);
      PaintLine(t, parentNode, gp, R);
    } else {
      RotateSub(t0, gp, L);
      RotateL(t, parentNode, pp);
      PaintLine(t, parentNode, gp, L);
    }
  }

  /** Case 2 then case 3 of `rbtree_insert_fixup`: node and parent form a
      triangle; the node is lifted over its parent, which puts the old
      parent under it on a line, and then case 3 lifts the node over its
      grandparent. */
  method InsertTriangle(t: RbTree, node: nat, isLeftParentNode: bool, ghost p: seq<Dir>)
    requires t.Wellformed() && InsertFixInv(t.tree, p) && |p| >= 2 && Sub(t.tree, p).id == node
    requires ColorOf(Sub(t.tree, Parent(p))) == Red && ColorOf(Sub(t.tree, Sibling(Parent(p)))) == Black
    requires Last(p) == Flip(Last(Parent(p))) && (isLeftParentNode <==> Last(Parent(p)) == L)
    modifies t
    ensures t.Wellformed() && IsRB(t.tree)
    ensures InOrder(t.tree) == old(InOrder(t.tree)) && Ids(t.tree) == old(Ids(t.tree))
    ensures |t.nodes| == |old(t.nodes)| && StoreFrame(old(t.nodes), t.nodes, old(Ids(t.tree)))
  {
    ghost var t0 := t.tree;
    ghost var pp := Parent(p);
    ghost var gp := Parent(pp);
    InsertFixRedParent(t0, p);
    PathTwo(p);
    SubParent(t0, p);
    InsertFixTrianglePractice(t0, p);
    ghost var a := Last(pp);
    RotateSub(t0, pp, a);
    if isLeftParentNode {
      RotateL(t, node, p);
    } else {
      RotateR(t, node, p);
    }
    InsertLine(t, node, isLeftParentNode, pp + [a]);
  }

  /** The last two steps of insert case 3: the node lifted to `gp` is
      painted BLACK, and its child on side `d`, the old grandparent, RED. */
  method PaintLine(t: RbTree, top: nat, ghost gp: seq<Dir>, d: Dir)
    requires t.Wellformed() && ValidPath(t.tree, gp) && Sub(t.tree, gp).Node? && Sub(t.tree, gp).id == top
    requires Child(Sub(t.tree, gp), d).Node?
    modifies t
    ensures t.Wellformed() && t.tree == RecolorAt(RecolorAt(old(t.tree), gp, Black), gp + [d], Red)
    ensures |t.nodes| == |old(t.nodes)| && StoreFrame(old(t.nodes), t.nodes, old(Ids(t.tree)))
  {
    ghost var t0 := t.tree;
    SubAppend(t0, gp, d);
    RecolorKeeps(t0, gp, Black, gp);
    RecolorKeeps(t0, gp, Black, gp + [d]);
    Paint(t, top, Black, gp);
    Nav(t.tree, gp, t.nodes);
    SubAppend(t.tree, gp, d);
    var child := if d == L then t.nodes[top].left else t.nodes[top].right;
    Paint(t, child, Red, gp + [d]);
  }

  /** `rbtree_insert`: a RED node holding `key` is taken from a fresh slot
      and hung where the descent ends (left when `key` is smaller than the
      node's key, right otherwise), then the fixup runs.  The in-order
      keys gain `key` after its equals, and the tree stays a valid
      red-black search tree. */
  method Insert(t: RbTree, key: Key) returns (newNode: nat)
    requires t.Valid()
    modifies t
    ensures t.Valid()
    ensures InOrder(t.tree) == InsertSorted(old(InOrder(t.tree)), key)
    ensures newNode == |old(t.nodes)| && |t.nodes| == newNode + 1
    ensures Ids(t.tree) == old(Ids(t.tree)) + {newNode}
    ensures t.nodes[newNode].key == key
    ensures StoreFrame(old(t.nodes), t.nodes, old(Ids(t.tree)))
  {
    ghost var t0 := t.tree;
    ghost var n0 := t.nodes;
    ghost var ip := InsertPath(t0, key);
    newNode := |t.nodes|;
    t.nodes := t.nodes + [NodeRecord(Red, key, 0, 0, 0)];
    LinkedIds(t0, n0);
    LinkedFrame(t0, n0, t.nodes);
    var currentNode := InsertDescend(t, key, newNode);
    if ip != [] {
      SubParent(t0, ip);
      NodeIdIn(t0, Parent(ip));
    }
    t.nodes := t.nodes[newNode := t.nodes[newNode].(parent := currentNode)];
    if currentNode == 0 {
      t.root := newNode;
    }
    if ip != [] {
      SubParent(t0, ip);
      NodeIdIn(t0, Parent(ip));
    }
    HangReady(t0, key, newNode, n0, t.nodes);
    assert StoreFrame(n0, t.nodes, Ids(t0));
    ghost var n2 := t.nodes;
    t.tree := Hang(t0, key, newNode);
    InsertFixup(t, newNode, ip);
    StoreFrameTrans(n0, n2, t.nodes, Ids(t0), Ids(t0) + {newNode});
    OrderedIffSorted(t0);
    InsertSortedFacts(InOrder(t0), key);
    OrderedIffSorted(t.tree);
  }

  /** The descent loop of `rbtree_insert`: from the root, left when `key`
      is smaller than the node's key and right otherwise, until the link
      to follow is `nil`; that link is pointed at `newNode`.  Returns the
      node the descent stopped at, `nil` when the tree is empty. */
  method InsertDescend(t: RbTree, key: Key, newNode: nat) returns (currentNode: nat)
    requires t.Wellformed() && 0 < newNode < |t.nodes| && newNode !in Ids(t.tree)
    modifies t
    ensures t.tree == old(t.tree) && t.root == old(t.root) && |t.nodes| == |old(t.nodes)|
    ensures var ip := InsertPath(t.tree, key);
            && (ip == [] <==> currentNode == 0)
            && (ip == [] ==> t.nodes == old(t.nodes))
            && (ip != [] ==> currentNode == IdOf(Sub(t.tree, Parent(ip))) && currentNode < |t.nodes|
                             && t.nodes == old(t.nodes)[currentNode := SetLink(old(t.nodes)[currentNode], Last(ip), newNode)])
  {
    ghost var t0 := t.tree;
    ghost var n0 := t.nodes;
    ghost var ip := InsertPath(t0, key);
    currentNode := t.root;
    ghost var cp: seq<Dir> := [];
    while currentNode != 0
      invariant t.nodes == n0 && t.root == IdOf(t0) && t.tree == t0
      invariant ValidPath(t0, cp) && IdOf(Sub(t0, cp)) == currentNode
      invariant cp == [] || currentNode != 0
      invariant ip == cp + InsertPath(Sub(t0, cp), key)
      decreases |InsertPath(Sub(t0, cp), key)|
    {
      Nav(t0, cp, n0);
      NilIffLeaf(Sub(t0, cp), n0);
      InsertPathStep(t0, cp, key);
      if key < t.nodes[currentNode].key {
        if t.nodes[currentNode].left == 0 {
          t.nodes := t.nodes[currentNode := t.nodes[currentNode].(left := newNode)];
          return;
        }
        currentNode := t.nodes[currentNode].left;
        cp := cp + [L];
      } else {
        if t.nodes[currentNode].right == 0 {
          t.nodes := t.nodes[currentNode := t.nodes[currentNode].(right := newNode)];
          return;
        }
        currentNode := t.nodes[currentNode].right;
        cp := cp + [R];
      }
    }
  }

  // ---------------------------------------------------------------------
  // Search
  // ---------------------------------------------------------------------

  /** `rbtree_find`: a node holding `key`, or `NULL` exactly when no node
      holds it. */
  method Find(t: RbTree, key: Key) returns (r: Option<nat>)
    requires t.Valid()
    ensures r.Some? <==> key in InOrder(t.tree)
    ensures r.Some? ==> 0 < r.value < |t.nodes| && r.value in Ids(t.tree) && t.nodes[r.value].key == key
  {
    var currentNode := t.root;
    ghost var s := t.tree;
    while currentNode != 0
      invariant Linked(s, t.nodes) && IdOf(s) == currentNode && Ordered(s) && Ids(s) <= Ids(t.tree)
      invariant key in InOrder(t.tree) <==> key in InOrder(s)
      decreases s
    {
      SearchStep(s, key);
      if t.nodes[currentNode].key == key {
        assert InOrder(s) == InOrder(s.l) + [s.k] + InOrder(s.r);
        return Some(currentNode);
      } else if key < t.nodes[currentNode].key {
        currentNode := t.nodes[currentNode].left;
        s := s.l;
      } else {
        currentNode := t.nodes[currentNode].right;
        s := s.r;
      }
    }
    return None;
  }

  /** `rbtree_min` on a non-empty tree: the leftmost node, which holds the
      first in-order key, a key no larger than any other. */
  method Min(t: RbTree) returns (r: nat)
    requires t.Valid() && t.tree.Node?
    ensures r == Sub(t.tree, MinPath(t.tree)).id && r in Ids(t.tree) && 0 < r < |t.nodes|
    ensures t.nodes[r].key == InOrder(t.tree)[0]
    ensures forall x | x in InOrder(t.tree) :: t.nodes[r].key <= x
  {
    ghost var tr := t.tree;
    var currentNode := t.root;
    ghost var cp: seq<Dir> := [];
    Nav(tr, cp, t.nodes);
    while t.nodes[currentNode].left != 0
      invariant ValidPath(tr, cp) && Sub(tr, cp).Node? && Sub(tr, cp).id == currentNode
      invariant MinPath(tr) == cp + MinPath(Sub(tr, cp))
      invariant 0 < currentNode < |t.nodes| && t.nodes[currentNode].left == IdOf(Sub(tr, cp).l)
      decreases Size(Sub(tr, cp))
    {
      Nav(tr, cp, t.nodes);
      NilIffLeaf(Sub(tr, cp), t.nodes);
      MinPathStep(tr, cp);
      currentNode := t.nodes[currentNode].left;
      cp := cp + [L];
      Nav(tr, cp, t.nodes);
    }
    Nav(tr, cp, t.nodes);
    NilIffLeaf(Sub(tr, cp), t.nodes);
    MinPathStep(tr, cp);
    r := currentNode;
    MinPathFirst(tr);
  }

  /** `rbtree_max` on a non-empty tree: the rightmost node, which holds the
      last in-order key, a key no smaller than any other. */
  method Max(t: RbTree) returns (r: nat)
    requires t.Valid() && t.tree.Node?
    ensures r == Sub(t.tree, MaxPath(t.tree)).id && r in Ids(t.tree) && 0 < r < |t.nodes|
    ensures t.nodes[r].key == InOrder(t.tree)[|InOrder(t.tree)| - 1]
    ensures forall x | x in InOrder(t.tree) :: x <= t.nodes[r].key
  {
    ghost var tr := t.tree;
    var currentNode := t.root;
    ghost var cp: seq<Dir> := [];
    Nav(tr, cp, t.nodes);
    while t.nodes[currentNode].right != 0
      invariant ValidPath(tr, cp) && Sub(tr, cp).Node? && Sub(tr, cp).id == currentNode
      invariant MaxPath(tr) == cp + MaxPath(Sub(tr, cp))
      invariant 0 < currentNode < |t.nodes| && t.nodes[currentNode].right == IdOf(Sub(tr, cp).r)
      decreases Size(Sub(tr, cp))
    {
      Nav(tr, cp, t.nodes);
      NilIffLeaf(Sub(tr, cp), t.nodes);
      MaxPathStep(tr, cp);
      currentNode := t.nodes[currentNode].right;
      cp := cp + [R];
      Nav(tr, cp, t.nodes);
    }
    Nav(tr, cp, t.nodes);
    NilIffLeaf(Sub(tr, cp), t.nodes);
    MaxPathStep(tr, cp);
    r := currentNode;
    MaxPathLast(tr);
  }

  /** `rbtree_successor_find`: the leftmost node of the subtree at `p`,
      which holds the subtree's smallest key. */
  method SuccessorFind(t: RbTree, node: nat, ghost p: seq<Dir>) returns (r: nat)
    requires t.Valid() && ValidPath(t.tree, p) && Sub(t.tree, p).Node? && Sub(t.tree, p).id == node
    ensures var s := Sub(t.tree, p);
            && ValidPath(t.tree, p + MinPath(s)) && Sub(t.tree, p + MinPath(s)) == Sub(s, MinPath(s))
            && r == Sub(s, MinPath(s)).id && r in Ids(t.tree) && 0 < r < |t.nodes|
            && t.nodes[r].key == InOrder(s)[0]
            && (forall x | x in InOrder(s) :: t.nodes[r].key <= x)
  {
    ghost var s := Sub(t.tree, p);
    var currentNode := node;
    ghost var rp: seq<Dir> := [];
    SubConcat(t.tree, p, rp);
    Nav(t.tree, p + rp, t.nodes);
    while t.nodes[currentNode].left != 0
      invariant ValidPath(s, rp) && Sub(s, rp).Node? && Sub(s, rp).id == currentNode
      invariant ValidPath(t.tree, p + rp) && Sub(t.tree, p + rp) == Sub(s, rp)
      invariant MinPath(s) == rp + MinPath(Sub(s, rp))
      invariant 0 < currentNode < |t.nodes| && t.nodes[currentNode].left == IdOf(Sub(s, rp).l)
      decreases Size(Sub(s, rp))
    {
      Nav(t.tree, p + rp, t.nodes);
      NilIffLeaf(Sub(s, rp), t.nodes);
      MinPathStep(s, rp);
      currentNode := t.nodes[currentNode].left;
      rp := rp + [L];
      SubConcat(t.tree, p, rp);
      Nav(t.tree, p + rp, t.nodes);
    }
    Nav(t.tree, p + rp, t.nodes);
    NilIffLeaf(Sub(s, rp), t.nodes);
    MinPathStep(s, rp);
    SubConcat(s, rp, []);
    r := currentNode;
    MinPathFirst(s);
    OrderedSub(t.tree, p);
  }

  // ---------------------------------------------------------------------
  // Erase
  // ---------------------------------------------------------------------

  /** `rbtree_erase`: the node `checkNode` (at `zp`) leaves the tree.  With
      two children it takes its successor's key and the successor is cut
      out instead; a BLACK node cut out below the root leaves its
      replacement one BLACK short, which `EraseFixup` repairs.  Exactly the
      erased node's key leaves the in-order sequence, and exactly the node
      cut out leaves the tree. */
  method Erase(t: RbTree, checkNode: nat, ghost zp: seq<Dir>) returns (r: int)
    requires t.Valid() && ValidPath(t.tree, zp) && Sub(t.tree, zp).Node? && Sub(t.tree, zp).id == checkNode
    modifies t
    ensures r == 0 && t.Valid() && |t.nodes| == |old(t.nodes)|
    ensures var s := old(InOrder(t.tree)); var i := old(InIndex(t.tree, zp));
            && i < |s| && s[i] == old(Sub(t.tree, zp).k) && InOrder(t.tree) == s[..i] + s[i + 1..]
    ensures Ids(t.tree) == old(Ids(t.tree) - {IdOf(Sub(t.tree, ErasePos(t.tree, zp)))})
    ensures checkNode < |t.nodes| && forall i | 0 < i < |t.nodes| && i != checkNode :: t.nodes[i].key == old(t.nodes[i].key)
    ensures var z := old(Sub(t.tree, zp));
            t.nodes[checkNode].key == (if TwoChildren(z) then Sub(z.r, MinPath(z.r)).k else z.k)
  {
    ghost var t0 := t.tree;
    ghost var n0 := t.nodes;
    ghost var sp := ErasePos(t0, zp);
    ghost var e := EraseByKeyCopy(t0, zp);
    EraseKeyCopySpec(t0, zp);
    OrderedIffSorted(e);
    ghost var z := Sub(t0, zp);
    ghost var newKey := if TwoChildren(z) then Sub(z.r, MinPath(z.r)).k else z.k;
    Nav(t0, zp, t.nodes);
    var successorNode, replaceNode := ChooseSuccessor(t, checkNode, zp);
    ghost var n1 := t.nodes;
    assert 0 < checkNode < |n1| && n1[checkNode].key == newKey;
    assert Unlink(t.tree, sp) == e;
    EraseAt(t, successorNode, replaceNode, sp, BH(t0));
    assert forall i | 0 < i < |t.nodes| :: t.nodes[i].key == n1[i].key;
    assert t.nodes[checkNode].key == newKey;
    OrderedIffSorted(t.tree);
    return 0;
  }

  /** Steps 2 and 3 of `rbtree_erase`, once the node to cut out is known:
      the node `successorNode` at `sp`, with at most one child
      `replaceNode`, is cut out, and when it was BLACK the fixup runs.  The
      keys and identities left are those of `Unlink(t.tree, sp)`. */
  method EraseAt(t: RbTree, successorNode: nat, replaceNode: nat, ghost sp: seq<Dir>, ghost h: int)
    requires t.Wellformed() && ValidPath(t.tree, sp)
    requires Sub(t.tree, sp).Node? && !TwoChildren(Sub(t.tree, sp)) && Sub(t.tree, sp).id == successorNode
    requires replaceNode == IdOf(Spliced(Sub(t.tree, sp)))
    requires sp == [] ==> IsRB(RecolorAt(Unlink(t.tree, sp), [], Black))
    requires sp != [] && Sub(t.tree, sp).c == Red ==> IsRB(Unlink(t.tree, sp))
    requires sp != [] && Sub(t.tree, sp).c == Black ==> EraseFixInv(Unlink(t.tree, sp), sp, h)
    modifies t
    ensures t.Wellformed() && IsRB(t.tree) && |t.nodes| == |old(t.nodes)|
    ensures InOrder(t.tree) == InOrder(Unlink(old(t.tree), sp))
    ensures Ids(t.tree) == Ids(Unlink(old(t.tree), sp))
    ensures StoreFrame(old(t.nodes), t.nodes, old(Ids(t.tree)))
  {
    ghost var t1 := t.tree;
    ghost var n1 := t.nodes;
    Nav(t1, sp, t.nodes);
    var parentSuccessorNode := t.nodes[successorNode].parent;
    if successorNode == t.root {
      assert sp == [];
      EraseRootCut(t, replaceNode);
      return;
    }
    var isSuccessorBlack, isSuccessorLeft := EraseCut(t, successorNode, replaceNode, parentSuccessorNode, sp);
    ghost var n2 := t.nodes;
    ghost var t2 := t.tree;
    if isSuccessorBlack {
      EraseFixup(t, parentSuccessorNode, isSuccessorLeft, sp, h);
      StoreFrameTrans(n1, n2, t.nodes, Ids(t1), Ids(t2));
    }
  }

  /** Step 2 of `rbtree_erase` when the node cut out is the root: the
      replacement becomes the root and is painted BLACK (`nil` included). */
  method EraseRootCut(t: RbTree, replaceNode: nat)
    requires t.Wellformed() && t.tree.Node? && !TwoChildren(t.tree) && replaceNode == IdOf(Spliced(t.tree))
    modifies t
    ensures t.Wellformed() && t.tree == RecolorAt(Spliced(old(t.tree)), [], Black)
    ensures |t.nodes| == |old(t.nodes)| && StoreFrame(old(t.nodes), t.nodes, old(Ids(t.tree)))
  {
    ghost var t1 := t.tree;
    ghost var n1 := t.nodes;
    Nav(t1, [], n1);
    LinkedIds(t1, n1);
    assert Linked(Spliced(t1), n1) && IdOf(Spliced(t1)) < |n1|;
    if Spliced(t1).Node? {
      assert Spliced(t1).id in Ids(Spliced(t1));
    }
    LinkedBlackTop(Spliced(t1), n1);
    t.root := replaceNode;
    t.nodes := t.nodes[t.root := t.nodes[t.root].(color := Black)];
    t.tree := RecolorAt(Spliced(t1), [], Black);
  }

  /** Step 2-1 of `rbtree_erase` below the root: the colour of the node
      cut out and its side are read, its parent's link and the
      replacement's `parent` are rewritten (the sentinel's too), and the
      node leaves the tree. */
  method EraseCut(t: RbTree, successorNode: nat, replaceNode: nat, parentSuccessorNode: nat, ghost sp: seq<Dir>)
    returns (isSuccessorBlack: bool, isSuccessorLeft: bool)
    requires t.Wellformed() && ValidPath(t.tree, sp) && sp != []
    requires Sub(t.tree, sp).Node? && !TwoChildren(Sub(t.tree, sp)) && Sub(t.tree, sp).id == successorNode
    requires replaceNode == IdOf(Spliced(Sub(t.tree, sp))) && parentSuccessorNode == IdOf(Sub(t.tree, Parent(sp)))
    modifies t
    ensures t.Wellformed() && t.tree == Unlink(old(t.tree), sp) && t.root == old(t.root)
    ensures Ids(t.tree) == old(Ids(t.tree)) - {old(Sub(t.tree, sp).id)}
    ensures |t.nodes| == |old(t.nodes)| && StoreFrame(old(t.nodes), t.nodes, old(Ids(t.tree)))
    ensures isSuccessorBlack <==> old(Sub(t.tree, sp).c) == Black
    ensures isSuccessorLeft <==> Last(sp) == L
    ensures Sub(t.tree, Parent(sp)).Node? && Sub(t.tree, Parent(sp)).id == parentSuccessorNode
  {
    ghost var t1 := t.tree;
    ghost var n1 := t.nodes;
    CutStore(t1, sp, n1);
    CutFrame(t1, sp, n1);
    isSuccessorBlack := ColorCode(t.nodes[successorNode].color) != 0;
    var nodes := t.nodes;
    isSuccessorLeft := nodes[parentSuccessorNode].left == successorNode;
    if isSuccessorLeft {
      nodes := nodes[parentSuccessorNode := nodes[parentSuccessorNode].(left := replaceNode)];
    } else {
      nodes := nodes[parentSuccessorNode := nodes[parentSuccessorNode].(right := replaceNode)];
    }
    nodes := nodes[replaceNode := nodes[replaceNode].(parent := parentSuccessorNode)];
    assert nodes == CutWrites(n1, parentSuccessorNode, Last(sp), replaceNode);
    t.nodes := nodes;
    t.tree := Unlink(t1, sp);
  }

  /** Step 1 of `rbtree_erase`: the node to cut out (`checkNode` itself, or
      with two children its successor, whose key `checkNode` takes) and the
      child that replaces it (the right one unless that is `nil`). */
  method ChooseSuccessor(t: RbTree, checkNode: nat, ghost zp: seq<Dir>) returns (successorNode: nat, replaceNode: nat)
    requires t.Valid() && ValidPath(t.tree, zp) && Sub(t.tree, zp).Node? && Sub(t.tree, zp).id == checkNode
    modifies t
    ensures var t0 := old(t.tree); var z := Sub(t0, zp); var sp := ErasePos(t0, zp);
            && t.Wellformed() && t.root == old(t.root) && |t.nodes| == |old(t.nodes)|
            && t.tree == (if TwoChildren(z) then RelabelAt(t0, zp, Sub(z.r, MinPath(z.r)).k, checkNode) else t0)
            && ValidPath(t.tree, sp) && Sub(t.tree, sp) == Sub(t0, sp)
            && Sub(t0, sp).Node? && !TwoChildren(Sub(t0, sp))
            && successorNode == IdOf(Sub(t0, sp)) && replaceNode == IdOf(Spliced(Sub(t0, sp)))
    ensures checkNode < |t.nodes| && forall i | 0 <= i < |t.nodes| && i != checkNode :: t.nodes[i] == old(t.nodes[i])
    ensures var z := old(Sub(t.tree, zp));
            t.nodes[checkNode] == old(t.nodes[checkNode]).(key := if TwoChildren(z) then Sub(z.r, MinPath(z.r)).k else z.k)
  {
    ghost var t0 := t.tree;
    ghost var z := Sub(t0, zp);
    EraseAsUnlink(t0, zp, checkNode);
    Nav(t0, zp, t.nodes);
    NilIffLeaf(z, t.nodes);
    if t.nodes[checkNode].left != 0 && t.nodes[checkNode].right != 0 {
      SubAppend(t0, zp, R);
      successorNode := SuccessorFind(t, t.nodes[checkNode].right, zp + [R]);
      ghost var y := Sub(z.r, MinPath(z.r));
      Nav(t0, ErasePos(t0, zp), t.nodes);
      replaceNode := t.nodes[successorNode].right;
      LinkedRelabel(t0, zp, z.c, y.k, t.nodes);
      t.nodes := t.nodes[checkNode := t.nodes[checkNode].(key := t.nodes[successorNode].key)];
      IdsReplace(t0, zp, z.(k := y.k));
      t.tree := RelabelAt(t0, zp, y.k, checkNode);
      if zp != [] {
        ReplaceKeepsRoot(t0, zp, z.(k := y.k));
      }
    } else {
      successorNode := checkNode;
      if t.nodes[checkNode].right != 0 {
        replaceNode := t.nodes[successorNode].right;
      } else {
        replaceNode := t.nodes[successorNode].left;
      }
    }
  }

  /** `rbtree_erase_fixup`: the child on side `isNodeLeft` of `parentNode`
      (at `xp`) is one BLACK short, the state `EraseFixInv` describes.  The
      recursion restores every colour invariant; keys and the set of nodes
      are unchanged.  The cases after the first, where the sibling is
      BLACK, are in `EraseFixBlackSibling`. */
  method EraseFixup(t: RbTree, parentNode: nat, isNodeLeft: bool, ghost xp: seq<Dir>, ghost h: int)
    requires t.Wellformed() && EraseFixInv(t.tree, xp, h) && xp != []
    requires (Last(xp) == L <==> isNodeLeft)
    requires Sub(t.tree, Parent(xp)).Node? && Sub(t.tree, Parent(xp)).id == parentNode
    modifies t
    ensures t.Wellformed() && IsRB(t.tree)
    ensures InOrder(t.tree) == old(InOrder(t.tree)) && Ids(t.tree) == old(Ids(t.tree))
    ensures |t.nodes| == |old(t.nodes)| && StoreFrame(old(t.nodes), t.nodes, old(Ids(t.tree)))
    decreases EraseRankA(t.tree, xp), EraseRankB(t.tree, xp), 2
  {
    ghost var t0 := t.tree;
    ghost var n0 := t.nodes;
    ghost var pp := Parent(xp);
    ghost var d := Last(xp);
    ghost var sib := Sibling(xp);
    EraseLocal(t0, xp, h);
    Nav(t0, pp, n0);
    Nav(t0, xp, n0);
    Nav(t0, sib, n0);
    var extraBlack := if isNodeLeft then t.nodes[parentNode].left else t.nodes[parentNode].right;
    if t.nodes[extraBlack].color == Red {
      EraseFixRed(t0, xp, h);
      Paint(t, extraBlack, Black, xp);
      return;
    }
    var siblingNode := if isNodeLeft then t.nodes[parentNode].right else t.nodes[parentNode].left;
    if t.nodes[siblingNode].color == Red {
      EraseRedSibling(t, parentNode, siblingNode, isNodeLeft, xp, h);
      return;
    }
    EraseFixBlackSibling(t, parentNode, siblingNode, isNodeLeft, xp, h);
  }

  /** Case 1 of `rbtree_erase_fixup` (the sibling is RED): the sibling is
      lifted over the parent, the two exchange colours, and the fixup goes
      on at the same node, now with a BLACK sibling. */
  method EraseRedSibling(t: RbTree, parentNode: nat, siblingNode: nat, isNodeLeft: bool,
                         ghost xp: seq<Dir>, ghost h: int)
    requires t.Wellformed() && EraseFixInv(t.tree, xp, h) && xp != []
    requires (Last(xp) == L <==> isNodeLeft) && ColorOf(Sub(t.tree, xp)) == Black
    requires Sub(t.tree, Parent(xp)).Node? && Sub(t.tree, Parent(xp)).id == parentNode
    requires Sub(t.tree, Sibling(xp)).Node? && Sub(t.tree, Sibling(xp)).id == siblingNode
    requires Sub(t.tree, Sibling(xp)).c == Red
    modifies t
    ensures t.Wellformed() && IsRB(t.tree)
    ensures InOrder(t.tree) == old(InOrder(t.tree)) && Ids(t.tree) == old(Ids(t.tree))
    ensures |t.nodes| == |old(t.nodes)| && StoreFrame(old(t.nodes), t.nodes, old(Ids(t.tree)))
    decreases EraseRankA(t.tree, xp), EraseRankB(t.tree, xp), 1
  {
    ghost var t0 := t.tree;
    ghost var n0 := t.nodes;
    ghost var pp := Parent(xp);
    ghost var d := Last(xp);
    EraseLocal(t0, xp, h);
    EraseFixRotateRedSrc(t0, xp, h);
    RotateSub(t0, pp, d);
    LiftSibling(t, parentNode, siblingNode, isNodeLeft, xp);
    ExchangeKeeps(RotateAt(t0, pp, d), pp, pp + [d], pp + [d]);
    ghost var n1 := t.nodes;
    EraseFixup(t, parentNode, isNodeLeft, pp + [d, d], h);
    StoreFrameTrans(n0, n1, t.nodes, Ids(t0), Ids(t0));
  }

  /** `rbtree_erase_fixup` with a BLACK deficient node and a BLACK sibling
      `siblingNode`: case 3 (near nephew RED, far nephew BLACK) prepares
      case 4 and recurses; case 4 (far nephew RED) ends the fixup; case 2
      (both nephews BLACK) paints the sibling RED and recurses at the
      parent unless it is the root. */
  method EraseFixBlackSibling(t: RbTree, parentNode: nat, siblingNode: nat, isNodeLeft: bool,
                              ghost xp: seq<Dir>, ghost h: int)
    requires t.Wellformed() && EraseFixInv(t.tree, xp, h) && xp != []
    requires (Last(xp) == L <==> isNodeLeft) && ColorOf(Sub(t.tree, xp)) == Black
    requires Sub(t.tree, Parent(xp)).Node? && Sub(t.tree, Parent(xp)).id == parentNode
    requires Sub(t.tree, Sibling(xp)).Node? && Sub(t.tree, Sibling(xp)).id == siblingNode
    requires Sub(t.tree, Sibling(xp)).c == Black
    modifies t
    ensures t.Wellformed() && IsRB(t.tree)
    ensures InOrder(t.tree) == old(InOrder(t.tree)) && Ids(t.tree) == old(Ids(t.tree))
    ensures |t.nodes| == |old(t.nodes)| && StoreFrame(old(t.nodes), t.nodes, old(Ids(t.tree)))
    decreases EraseRankA(t.tree, xp), EraseRankB(t.tree, xp), 1
  {
    ghost var t0 := t.tree;
    ghost var n0 := t.nodes;
    ghost var pp := Parent(xp);
    ghost var d := Last(xp);
    ghost var sib := Sibling(xp);
    ghost var s := Sub(t0, sib);
    EraseLocal(t0, xp, h);
    Nav(t0, pp, n0);
    Nav(t0, sib, n0);
    var siblingLeftNode := t.nodes[siblingNode].left;
    var siblingRightNode := t.nodes[siblingNode].right;
    var near := if isNodeLeft then siblingLeftNode else siblingRightNode;
    var distant := if isNodeLeft then siblingRightNode else siblingLeftNode;
    assert near == IdOf(Child(s, d)) && distant == IdOf(Child(s, Flip(d)));
    assert near < |t.nodes| && t.nodes[near].color == ColorOf(Child(s, d));
    assert distant < |t.nodes| && t.nodes[distant].color == ColorOf(Child(s, Flip(d)));
    if isNodeLeft && t.nodes[near].color == Red && t.nodes[distant].color == Black {
      EraseNearRedStep(t, parentNode, siblingNode, near, isNodeLeft, xp, h);
      return;
    }
    if isNodeLeft && t.nodes[distant].color == Red {
      EraseFarRedOfInv(t0, xp, h);
      EraseFixFarRedSrc(t0, xp, h);
      EraseFarRed(t, parentNode, siblingNode, distant, isNodeLeft, xp);
      return;
    }
    if t.nodes[near].color == Red && t.nodes[distant].color == Black {
      EraseNearRedStep(t, parentNode, siblingNode, near, isNodeLeft, xp, h);
      return;
    }
    if t.nodes[distant].color == Red {
      EraseFarRedOfInv(t0, xp, h);
      EraseFixFarRedSrc(t0, xp, h);
      EraseFarRed(t, parentNode, siblingNode, distant, isNodeLeft, xp);
      return;
    }
    ErasePushUp(t, parentNode, siblingNode, xp, h);
  }

  /** Case 2: the sibling is painted RED, which moves the missing BLACK up
      to the parent; the fixup goes on there unless the parent is the root.
      Whether the parent is a left child is read through its own `parent`
      link before the root test, as `src` does. */
  method ErasePushUp(t: RbTree, parentNode: nat, siblingNode: nat, ghost xp: seq<Dir>, ghost h: int)
    requires t.Wellformed() && EraseFixInv(t.tree, xp, h) && xp != [] && ColorOf(Sub(t.tree, xp)) == Black
    requires Sub(t.tree, Parent(xp)).Node? && Sub(t.tree, Parent(xp)).id == parentNode
    requires Sub(t.tree, Sibling(xp)).Node? && Sub(t.tree, Sibling(xp)).id == siblingNode
    requires Sub(t.tree, Sibling(xp)).c == Black
    requires ColorOf(Sub(t.tree, Sibling(xp)).l) == Black && ColorOf(Sub(t.tree, Sibling(xp)).r) == Black
    modifies t
    ensures t.Wellformed() && IsRB(t.tree)
    ensures InOrder(t.tree) == old(InOrder(t.tree)) && Ids(t.tree) == old(Ids(t.tree))
    ensures |t.nodes| == |old(t.nodes)| && StoreFrame(old(t.nodes), t.nodes, old(Ids(t.tree)))
    decreases EraseRankA(t.tree, xp), EraseRankB(t.tree, xp), 0
  {
    ghost var t0 := t.tree;
    ghost var n0 := t.nodes;
    ghost var pp := Parent(xp);
    ghost var sib := Sibling(xp);
    EraseLocal(t0, xp, h);
    Nav(t0, pp, n0);
    EraseFixPushUp(t0, xp, h);
    Paint(t, siblingNode, Red, sib);
    var grandParentNode := t.nodes[parentNode].parent;
    var isParentLeft := grandParentNode < |t.nodes| && t.nodes[grandParentNode].left == parentNode;
    if parentNode != t.root {
      ghost var gp := Parent(pp);
      SubParent(t0, pp);
      Nav(t0, gp, n0);
      IdsReplace(t0, gp, Leaf);
      SidesDiffer(Sub(t0, gp));
      RecolorKeeps(t0, sib, Red, gp);
      ghost var n1 := t.nodes;
      EraseFixup(t, grandParentNode, isParentLeft, pp, h);
      StoreFrameTrans(n0, n1, t.nodes, Ids(t0), Ids(t0));
    } else {
      EraseFixRoot(t.tree, h);
    }
  }


  /** Case 3 followed by the recursion it prepares: the near nephew is
      lifted above the sibling, the two swap colours, and the fixup goes on
      at the same node, which now has a RED far nephew. */
  method EraseNearRedStep(t: RbTree, parentNode: nat, siblingNode: nat, near: nat, isNodeLeft: bool,
                          ghost xp: seq<Dir>, ghost h: int)
    requires t.Wellformed() && EraseFixInv(t.tree, xp, h) && xp != []
    requires (Last(xp) == L <==> isNodeLeft) && ColorOf(Sub(t.tree, xp)) == Black
    requires Sub(t.tree, Parent(xp)).Node? && Sub(t.tree, Parent(xp)).id == parentNode
    requires Sub(t.tree, Sibling(xp)).Node? && Sub(t.tree, Sibling(xp)).id == siblingNode
    requires Sub(t.tree, Sibling(xp)).c == Black
    requires Child(Sub(t.tree, Sibling(xp)), Last(xp)).Node? && Child(Sub(t.tree, Sibling(xp)), Last(xp)).id == near
    requires Child(Sub(t.tree, Sibling(xp)), Last(xp)).c == Red
    requires ColorOf(Child(Sub(t.tree, Sibling(xp)), Flip(Last(xp)))) == Black
    modifies t
    ensures t.Wellformed() && IsRB(t.tree)
    ensures InOrder(t.tree) == old(InOrder(t.tree)) && Ids(t.tree) == old(Ids(t.tree))
    ensures |t.nodes| == |old(t.nodes)| && StoreFrame(old(t.nodes), t.nodes, old(Ids(t.tree)))
    decreases EraseRankA(t.tree, xp), EraseRankB(t.tree, xp), 0
  {
    ghost var t0 := t.tree;
    ghost var n0 := t.nodes;
    ghost var pp := Parent(xp);
    ghost var d := Last(xp);
    ghost var sib := Sibling(xp);
    EraseLocal(t0, xp, h);
    EraseFixNearRedSrc(t0, xp, h);
    RotateOff(t0, sib, Flip(d), pp);
    RotateOff(t0, sib, Flip(d), xp);
    EraseNearRed(t, siblingNode, near, isNodeLeft, xp);
    ghost var u := RotateAt(t0, sib, Flip(d));
    SubAppend(t0, sib, d);
    RotateSub(t0, sib, Flip(d));
    ExchangeKeeps(u, sib + [Flip(d)], sib, pp);
    ghost var n1 := t.nodes;
    EraseFixup(t, parentNode, isNodeLeft, xp, h);
    StoreFrameTrans(n0, n1, t.nodes, Ids(t0), Ids(t0));
  }

  /** The rotation shared by cases 1 and 4: `rotate_L` (or `rotate_R`) on
      the sibling lifts it above the parent, then `exchange_color(sibling,
      parent)`. */
  method LiftSibling(t: RbTree, parentNode: nat, siblingNode: nat, isNodeLeft: bool, ghost xp: seq<Dir>)
    requires t.Wellformed() && xp != [] && ValidPath(t.tree, xp) && (Last(xp) == L <==> isNodeLeft)
    requires Sub(t.tree, Parent(xp)).Node? && Sub(t.tree, Parent(xp)).id == parentNode
    requires Sub(t.tree, Sibling(xp)).Node? && Sub(t.tree, Sibling(xp)).id == siblingNode
    modifies t
    ensures t.Wellformed()
    ensures t.tree == Exchange(RotateAt(old(t.tree), Parent(xp), Last(xp)), Parent(xp), Parent(xp) + [Last(xp)])
    ensures |t.nodes| == |old(t.nodes)| && StoreFrame(old(t.nodes), t.nodes, old(Ids(t.tree)))
  {
    ghost var t0 := t.tree;
    ghost var n0 := t.nodes;
    ghost var pp := Parent(xp);
    ghost var d := Last(xp);
    ghost var sib := Sibling(xp);
    SubParent(t0, xp);
    SubAppend(t0, pp, Flip(d));
    assert Flip(Flip(d)) == d;
    RotateSub(t0, pp, d);
    if isNodeLeft {
      RotateL(t, siblingNode, sib);
    } else {
      RotateR(t, siblingNode, sib);
    }
    ghost var n1 := t.nodes;
    ExchangeColor(t, siblingNode, parentNode, pp, pp + [d]);
    StoreFrameTrans(n0, n1, t.nodes, Ids(t0), Ids(t0));
  }

  /** Case 3's rewrite: `rotate_R` (or `rotate_L`) on the near nephew lifts
      it above the sibling, then `exchange_color(sibling, near)`. */
  method EraseNearRed(t: RbTree, siblingNode: nat, near: nat, isNodeLeft: bool, ghost xp: seq<Dir>)
    requires t.Wellformed() && xp != [] && ValidPath(t.tree, xp) && (Last(xp) == L <==> isNodeLeft)
    requires Sub(t.tree, Sibling(xp)).Node? && Sub(t.tree, Sibling(xp)).id == siblingNode
    requires Child(Sub(t.tree, Sibling(xp)), Last(xp)).Node? && Child(Sub(t.tree, Sibling(xp)), Last(xp)).id == near
    modifies t
    ensures t.Wellformed()
    ensures t.tree == Exchange(RotateAt(old(t.tree), Sibling(xp), Flip(Last(xp))),
                               Sibling(xp) + [Flip(Last(xp))], Sibling(xp))
    ensures |t.nodes| == |old(t.nodes)| && StoreFrame(old(t.nodes), t.nodes, old(Ids(t.tree)))
  {
    ghost var t0 := t.tree;
    ghost var n0 := t.nodes;
    ghost var pp := Parent(xp);
    ghost var d := Last(xp);
    ghost var sib := Sibling(xp);
    SubParent(t0, xp);
    SubAppend(t0, pp, Flip(d));
    SubAppend(t0, sib, d);
    assert Flip(Flip(d)) == d;
    RotateSub(t0, sib, Flip(d));
    if isNodeLeft {
      RotateR(t, near, sib + [d]);
    } else {
      RotateL(t, near, sib + [d]);
    }
    ghost var n1 := t.nodes;
    ExchangeColor(t, siblingNode, near, sib + [Flip(d)], sib);
    StoreFrameTrans(n0, n1, t.nodes, Ids(t0), Ids(t0));
  }

  /** Case 4's rewrite: the sibling is lifted above the parent with the
      colours exchanged, and the far nephew `distant` is painted BLACK. */
  method EraseFarRed(t: RbTree, parentNode: nat, siblingNode: nat, distant: nat, isNodeLeft: bool,
                     ghost xp: seq<Dir>)
    requires t.Wellformed() && xp != [] && ValidPath(t.tree, xp) && (Last(xp) == L <==> isNodeLeft)
    requires Sub(t.tree, Parent(xp)).Node? && Sub(t.tree, Parent(xp)).id == parentNode
    requires Sub(t.tree, Sibling(xp)).Node? && Sub(t.tree, Sibling(xp)).id == siblingNode
    requires Child(Sub(t.tree, Sibling(xp)), Flip(Last(xp))).Node?
    requires Child(Sub(t.tree, Sibling(xp)), Flip(Last(xp))).id == distant
    modifies t
    ensures t.Wellformed()
    ensures var pp := Parent(xp); var d := Last(xp);
            t.tree == RecolorAt(Exchange(RotateAt(old(t.tree), pp, d), pp, pp + [d]), pp + [Flip(d)], Black)
    ensures |t.nodes| == |old(t.nodes)| && StoreFrame(old(t.nodes), t.nodes, old(Ids(t.tree)))
  {
    ghost var t0 := t.tree;
    ghost var n0 := t.nodes;
    ghost var pp := Parent(xp);
    ghost var d := Last(xp);
    SubParent(t0, xp);
    SubAppend(t0, pp, Flip(d));
    RotateSub(t0, pp, d);
    LiftSibling(t, parentNode, siblingNode, isNodeLeft, xp);
    ExchangeKeeps(RotateAt(t0, pp, d), pp, pp + [d], pp + [Flip(d)]);
    ghost var n1 := t.nodes;
    Paint(t, distant, Black, pp + [Flip(d)]);
    StoreFrameTrans(n0, n1, t.nodes, Ids(t0), Ids(t0));
  }

  // ---------------------------------------------------------------------
  // To array
  // ---------------------------------------------------------------------

  /** `rbtree_to_array`: the keys in ascending order at the front of
      `arr`.  The capacity `n` is not consulted; the caller must provide
      room for every key. */
  method ToArray(t: RbTree, arr: array<Key>, n: nat) returns (r: int)
    requires t.Valid() && t.tree.Node? && |InOrder(t.tree)| <= arr.Length
    modifies arr
    ensures r == 0
    ensures arr[..] == Overwrite(old(arr[..]), 0, InOrder(t.tree))
    ensures arr[..|InOrder(t.tree)|] == InOrder(t.tree) && Sorted(arr[..|InOrder(t.tree)|])
  {
    var node := t.root;
    var idx := 0;
    idx := InOrderWalk(t, arr, node, idx, t.tree);
    OrderedIffSorted(t.tree);
    return 0;
  }

  /** `rbtree_inOrder`: the keys of the subtree `s` whose top is `node`
      written in order from `arr[idx]` on, nothing else in `arr` touched;
      the index past the last one is returned. */
  method InOrderWalk(t: RbTree, arr: array<Key>, node: nat, idx: nat, ghost s: Tree) returns (idx': nat)
    requires Linked(s, t.nodes) && s.Node? && s.id == node
    requires idx + |InOrder(s)| <= arr.Length
    modifies arr
    ensures idx' == idx + |InOrder(s)|
    ensures arr[..] == Overwrite(old(arr[..]), idx, InOrder(s))
    decreases s
  {
    ghost var a0 := arr[..];
    NilIffLeaf(s, t.nodes);
    idx' := idx;
    if t.nodes[node].left != 0 {
      idx' := InOrderWalk(t, arr, t.nodes[node].left, idx', s.l);
    } else {
      OverwriteNone(a0, idx);
    }
    ghost var a1 := arr[..];
    ghost var m := idx';
    arr[idx'] := t.nodes[node].key;
    idx' := idx' + 1;
    ghost var a2 := arr[..];
    assert a2 == a1[m := s.k];
    if t.nodes[node].right != 0 {
      idx' := InOrderWalk(t, arr, t.nodes[node].right, idx', s.r);
    } else {
      OverwriteNone(a2, idx');
    }
    OverwriteSteps(a0, a1, a2, arr[..], idx, InOrder(s.l), s.k, InOrder(s.r));
  }

  // ---------------------------------------------------------------------
  // Helpers for the proofs above
  // ---------------------------------------------------------------------

  /** The records `rotate_L` and `rotate_R` write, in their order: the
      old parent `s` of the lifted node `c` goes down on side `d`, and the
      inner subtree `b` of `c` changes sides.  `hook` says whether `s` had
      a parent `g` whose child link must now name `c`. */
  function RotWrites(n: seq<NodeRecord>, g: nat, s: nat, c: nat, b: nat, d: Dir, hook: bool): seq<NodeRecord>
    requires g < |n| && s < |n| && c < |n| && b < |n|
  {
    var n1 := if hook then n[g := SetLink(n[g], if n[g].left == s then L else R, c)] else n;
    var n2 := n1[c := n1[c].(parent := n[s].parent)];
    var n3 := n2[s := n2[s].(parent := c)];
    var n4 := n3[c := SetLink(n3[c], d, s)];
    var n5 := n4[s := SetLink(n4[s], Flip(d), b)];
    n5[b := n5[b].(parent := s)]
  }

  /** Slot by slot, what `RotWrites` leaves in the store. */
  lemma RotWritesAt(n: seq<NodeRecord>, g: nat, s: nat, c: nat, b: nat, d: Dir, hook: bool)
    requires g < |n| && s < |n| && c < |n| && b < |n|
    requires s != c && b != s && b != c && (hook ==> g != s && g != c && g != b)
    ensures var n' := RotWrites(n, g, s, c, b, d, hook);
            && |n'| == |n|
            && n'[c] == SetLink(n[c], d, s).(parent := n[s].parent)
            && n'[s] == SetLink(n[s], Flip(d), b).(parent := c)
            && n'[b] == n[b].(parent := s)
            && (hook ==> n'[g] == SetLink(n[g], if n[g].left == s then L else R, c))
            && (forall i | 0 <= i < |n| && i != s && i != c && i != b && (hook ==> i != g) :: n'[i] == n[i])
  {
  }

  /** The writes of a rotation at the pivot `pp` are the records of the
      rotated tree; they touch no slot outside the tree but `nil`, and no
      key or colour. */
  lemma RotWritesRecords(t: Tree, pp: seq<Dir>, d: Dir, nodes: seq<NodeRecord>)
    requires Linked(t, nodes) && Distinct(t) && ValidPath(t, pp)
    requires Sub(t, pp).Node? && Child(Sub(t, pp), Flip(d)).Node?
    ensures RotSlotsOk(t, pp, d, nodes)
    ensures var n' := RotWritesOf(t, pp, d, nodes);
            && RotatedRecords(t, pp, d, nodes, n')
            && |n'| == |nodes| && n'[0].color == nodes[0].color
            && StoreFrame(nodes, n', Ids(t))
  {
    var s := Sub(t, pp);
    var c := Child(s, Flip(d));
    var b := Child(c, d);
    var g := if pp == [] then 0 else IdOf(Sub(t, Parent(pp)));
    RotSlots(t, pp, d, nodes);
    var n' := RotWritesOf(t, pp, d, nodes);
    RotWritesAt(nodes, g, s.id, c.id, IdOf(b), d, pp != []);
    assert RotatedRecords(t, pp, d, nodes, n');
    LinkedIds(t, nodes);
    NodeIdIn(t, pp);
    assert s.id in Ids(t);
    assert forall i | 0 < i < |nodes| && i !in Ids(t) :: n'[i] == nodes[i];
  }

  /** The store after the writes of a rotation at `pp` spells out the
      rotated tree, and only the tree's own slots have changed. */
  lemma RotStore(t: Tree, pp: seq<Dir>, d: Dir, nodes: seq<NodeRecord>)
    requires Linked(t, nodes) && Distinct(t) && ValidPath(t, pp)
    requires Sub(t, pp).Node? && Child(Sub(t, pp), Flip(d)).Node?
    ensures RotSlotsOk(t, pp, d, nodes)
    ensures var n' := RotWritesOf(t, pp, d, nodes);
            && Linked(RotateAt(t, pp, d), n')
            && |n'| == |nodes| && n'[0].color == nodes[0].color
            && StoreFrame(nodes, n', Ids(t))
    ensures IdOf(RotateAt(t, pp, d)) == (if pp == [] then Child(Sub(t, pp), Flip(d)).id else IdOf(t))
  {
    RotateSub(t, pp, d);
    RotWritesRecords(t, pp, d, nodes);
    LinkedRotate(t, pp, d, nodes, RotWritesOf(t, pp, d, nodes));
  }

  /** The slots a rotation at `pp` writes, as `RotWrites` takes them. */
  function RotWritesOf(t: Tree, pp: seq<Dir>, d: Dir, nodes: seq<NodeRecord>): seq<NodeRecord>
    requires RotSlotsOk(t, pp, d, nodes)
  {
    var s := Sub(t, pp);
    var c := Child(s, Flip(d));
    var g := if pp == [] then 0 else IdOf(Sub(t, Parent(pp)));
    RotWrites(nodes, g, s.id, c.id, IdOf(Child(c, d)), d, pp != [])
  }
}

