// practice/rbtree.c: the red-black tree whose rotations take the pivot
// that goes down, whose fixups are loops, and whose erase moves the
// successor node itself into the erased node's place.  It finds the root by
// a `parent` equal to `nil`, so besides the links of `RbNodes` it keeps the
// root's `parent` at `nil` (`Rooted`).

module PracticeRbtree {
  import opened RbSpec
  import opened RbPaths
  import opened RbInvariants
  import opened RbFixup
  import opened RbOps
  import opened RbNodes

  /** The records spell out the tree and the root's `parent` is `nil`:
      `practice` recognises the root by that link. */
  ghost predicate Rooted(t: RbTree)
    reads t
  {
    && t.Wellformed() && t.root < |t.nodes|
    && (t.root != 0 ==> t.nodes[t.root].parent == 0)
  }

  /** `new_rbtree`: an empty tree; `root` and the sentinel are the same
      BLACK record. */
  method NewRbtree() returns (t: RbTree)
    ensures fresh(t) && Rooted(t) && ValidRB(t.tree)
    ensures t.tree == Leaf && t.root == 0 && |t.nodes| == 1 && t.nodes[0].color == Black
  {
    t := new RbTree();
  }

  // ---------------------------------------------------------------------
  // Rotations
  // ---------------------------------------------------------------------

  /** `rbtree_left_rotate`: the pivot `node` (at `pp`) goes down to the
      left and its right child takes its place, at the root when `node`'s
      `parent` is `nil`.  The inner subtree changes sides; `nil`'s record is
      never written. */
  method LeftRotate(t: RbTree, node: nat, ghost pp: seq<Dir>)
    requires Rooted(t) && ValidPath(t.tree, pp) && Sub(t.tree, pp).Node? && Sub(t.tree, pp).id == node
    requires Child(Sub(t.tree, pp), R).Node?
    modifies t
    ensures Rooted(t) && t.tree == RotateAt(old(t.tree), pp, L)
    ensures t.root == (if pp == [] then old(Child(Sub(t.tree, pp), R).id) else old(t.root))
    ensures |t.nodes| == |old(t.nodes)| && t.nodes[0] == old(t.nodes[0])
    ensures StoreFrame(old(t.nodes), t.nodes, old(Ids(t.tree)))
  {
    ghost var t0 := t.tree;
    ghost var n0 := t.nodes;
    PivotStore(t0, pp, L, n0);
    Nav(t0, pp, n0);
    var nodes := t.nodes;
    var tmp := nodes[node].right;
    var inner := nodes[tmp].left;
    nodes := nodes[node := nodes[node].(right := inner)];
    if inner != 0 {
      nodes := nodes[inner := nodes[inner].(parent := node)];
    }
    nodes := nodes[tmp := nodes[tmp].(parent := nodes[node].parent)];
    var up := nodes[node].parent;
    if up == 0 {
      t.root := tmp;
    } else if node == nodes[up].left {
      nodes := nodes[up := nodes[up].(left := tmp)];
    } else {
      nodes := nodes[up := nodes[up].(right := tmp)];
    }
    nodes := nodes[tmp := nodes[tmp].(left := node)];
    nodes := nodes[node := nodes[node].(parent := tmp)];
    assert nodes == PivotWritesOf(t0, pp, L, n0);
    t.nodes := nodes;
    t.tree := RotateAt(t0, pp, L);
  }

  /** `rbtree_right_rotate`: the mirror image of `LeftRotate`. */
  method RightRotate(t: RbTree, node: nat, ghost pp: seq<Dir>)
    requires Rooted(t) && ValidPath(t.tree, pp) && Sub(t.tree, pp).Node? && Sub(t.tree, pp).id == node
    requires Child(Sub(t.tree, pp), L).Node?
    modifies t
    ensures Rooted(t) && t.tree == RotateAt(old(t.tree), pp, R)
    ensures t.root == (if pp == [] then old(Child(Sub(t.tree, pp), L).id) else old(t.root))
    ensures |t.nodes| == |old(t.nodes)| && t.nodes[0] == old(t.nodes[0])
    ensures StoreFrame(old(t.nodes), t.nodes, old(Ids(t.tree)))
  {
    ghost var t0 := t.tree;
    ghost var n0 := t.nodes;
    PivotStore(t0, pp, R, n0);
    Nav(t0, pp, n0);
    var nodes := t.nodes;
    var tmp := nodes[node].left;
    var inner := nodes[tmp].right;
    nodes := nodes[node := nodes[node].(left := inner)];
    if inner != 0 {
      nodes := nodes[inner := nodes[inner].(parent := node)];
    }
    nodes := nodes[tmp := nodes[tmp].(parent := nodes[node].parent)];
    var up := nodes[node].parent;
    if up == 0 {
      t.root := tmp;
    } else if node == nodes[up].left {
      nodes := nodes[up := nodes[up].(left := tmp)];
    } else {
      nodes := nodes[up := nodes[up].(right := tmp)];
    }
    nodes := nodes[tmp := nodes[tmp].(right := node)];
    nodes := nodes[node := nodes[node].(parent := tmp)];
    assert nodes == PivotWritesOf(t0, pp, R, n0);
    t.nodes := nodes;
    t.tree := RotateAt(t0, pp, R);
  }

  /** The records a pivot rotation writes, in its order: the pivot `s`
      goes down on side `d`, its child `c` on the other side comes up, and
      `c`'s inner subtree `b` changes sides (its `parent` is written only
      when it is not `nil`).  `hook` says whether `s` has a parent `g`. */
  function PivotWrites(n: seq<NodeRecord>, g: nat, s: nat, c: nat, b: nat, d: Dir, hook: bool): seq<NodeRecord>
    requires g < |n| && s < |n| && c < |n| && b < |n|
  {
    var n1 := n[s := SetLink(n[s], Flip(d), b)];
    var n2 := if b != 0 then n1[b := n1[b].(parent := s)] else n1;
    var n3 := n2[c := n2[c].(parent := n2[s].parent)];
    var n4 := if hook then n3[g := SetLink(n3[g], if s == n3[g].left then L else R, c)] else n3;
    var n5 := n4[c := SetLink(n4[c], d, s)];
    n5[s := n5[s].(parent := c)]
  }

  /** Slot by slot, what `PivotWrites` leaves in the store. */
  lemma PivotWritesAt(n: seq<NodeRecord>, g: nat, s: nat, c: nat, b: nat, d: Dir, hook: bool)
    requires g < |n| && s < |n| && c < |n| && b < |n|
    requires s != c && b != s && b != c && (hook ==> g != s && g != c && g != b)
    ensures var n' := PivotWrites(n, g, s, c, b, d, hook);
            && |n'| == |n|
            && n'[c] == SetLink(n[c], d, s).(parent := n[s].parent)
            && n'[s] == SetLink(n[s], Flip(d), b).(parent := c)
            && (b != 0 ==> n'[b] == n[b].(parent := s))
            && (hook ==> n'[g] == SetLink(n[g], if n[g].left == s then L else R, c))
            && (forall i | 0 <= i < |n| && i != s && i != c && (b != 0 ==> i != b) && (hook ==> i != g) ::
                  n'[i] == n[i])
  {
  }

  /** The slots a pivot rotation at `pp` writes, as `PivotWrites` takes
      them. */
  function PivotWritesOf(t: Tree, pp: seq<Dir>, d: Dir, nodes: seq<NodeRecord>): seq<NodeRecord>
    requires RotSlotsOk(t, pp, d, nodes)
  {
    var s := Sub(t, pp);
    var c := Child(s, Flip(d));
    var g := if pp == [] then 0 else IdOf(Sub(t, Parent(pp)));
    PivotWrites(nodes, g, s.id, c.id, IdOf(Child(c, d)), d, pp != [])
  }

  /** The writes of a pivot rotation at `pp` are the records of the
      rotated tree, and they touch no slot outside the tree. */
  lemma PivotRecords(t: Tree, pp: seq<Dir>, d: Dir, nodes: seq<NodeRecord>)
    requires Linked(t, nodes) && Distinct(t) && ValidPath(t, pp)
    requires Sub(t, pp).Node? && Child(Sub(t, pp), Flip(d)).Node?
    ensures RotSlotsOk(t, pp, d, nodes)
    ensures var n' := PivotWritesOf(t, pp, d, nodes);
            && RotatedRecords(t, pp, d, nodes, n')
            && |n'| == |nodes| && n'[0] == nodes[0]
            && StoreFrame(nodes, n', Ids(t))
  {
    var s := Sub(t, pp);
    var c := Child(s, Flip(d));
    var b := Child(c, d);
    var g := if pp == [] then 0 else IdOf(Sub(t, Parent(pp)));
    RotSlots(t, pp, d, nodes);
    SubAppend(t, pp, Flip(d));
    SubAppend(t, pp + [Flip(d)], d);
    Nav(t, pp + [Flip(d)] + [d], nodes);
    var n' := PivotWritesOf(t, pp, d, nodes);
    PivotWritesAt(nodes, g, s.id, c.id, IdOf(b), d, pp != []);
    assert RotatedRecords(t, pp, d, nodes, n');
    LinkedIds(t, nodes);
    NodeIdIn(t, pp);
    assert forall i | 0 < i < |nodes| && i !in Ids(t) :: n'[i] == nodes[i];
  }

  /** The store after the writes of a pivot rotation at `pp` spells out
      the rotated tree; only the tree's own slots change, `nil` not at all,
      and the node that comes up inherits the pivot's `parent`, while the
      root keeps its own unless it was the pivot. */
  lemma PivotStore(t: Tree, pp: seq<Dir>, d: Dir, nodes: seq<NodeRecord>)
    requires Linked(t, nodes) && Distinct(t) && ValidPath(t, pp)
    requires Sub(t, pp).Node? && Child(Sub(t, pp), Flip(d)).Node?
    ensures RotSlotsOk(t, pp, d, nodes)
    ensures var n' := PivotWritesOf(t, pp, d, nodes); var s := Sub(t, pp); var c := Child(s, Flip(d));
            && Linked(RotateAt(t, pp, d), n')
            && |n'| == |nodes| && n'[0] == nodes[0]
            && StoreFrame(nodes, n', Ids(t))
            && n'[c.id].parent == nodes[s.id].parent
            && (pp != [] ==> IdOf(t) < |nodes| && n'[IdOf(t)].parent == nodes[IdOf(t)].parent)
    ensures IdOf(RotateAt(t, pp, d)) == (if pp == [] then Child(Sub(t, pp), Flip(d)).id else IdOf(t))
  {
    var s := Sub(t, pp);
    var c := Child(s, Flip(d));
    var b := Child(c, d);
    PivotRecords(t, pp, d, nodes);
    var n' := PivotWritesOf(t, pp, d, nodes);
    RotateSub(t, pp, d);
    LinkedRotate(t, pp, d, nodes, n');
    if pp != [] {
      Nav(t, pp, nodes);
      SubAppend(t, pp, Flip(d));
      Nav(t, pp + [Flip(d)], nodes);
      if b.Node? {
        SubAppend(t, pp + [Flip(d)], d);
        Nav(t, pp + [Flip(d)] + [d], nodes);
      }
    }
  }

  // ---------------------------------------------------------------------
  // Transplant
  // ---------------------------------------------------------------------

  /** The records `rbtree_transplant(empty, replace)` writes: the link of
      `empty`'s parent that named `empty` (unless that parent is `nil`),
      then `replace`'s `parent`, written even when `replace` is `nil`. */
  function TransplantWrites(n: seq<NodeRecord>, e: nat, r: nat): seq<NodeRecord>
    requires e < |n| && r < |n| && n[e].parent < |n|
  {
    var g := n[e].parent;
    var n1 := if g == 0 then n else n[g := SetLink(n[g], if e == n[g].left then L else R, r)];
    n1[r := n1[r].(parent := n1[e].parent)]
  }

  /** `rbtree_transplant`: `replace` takes `empty`'s place under `empty`'s
      parent, or becomes the root when that parent is `nil`.  The records
      change as `TransplantWrites` says and nothing else; the ghost tree is
      left for the caller, since `empty`'s old subtree may be in the middle
      of a rewrite. */
  method Transplant(t: RbTree, empty: nat, replace: nat)
    requires empty < |t.nodes| && replace < |t.nodes| && t.nodes[empty].parent < |t.nodes|
    modifies t
    ensures t.nodes == TransplantWrites(old(t.nodes), empty, replace)
    ensures t.root == (if old(t.nodes[empty].parent) == 0 then replace else old(t.root))
    ensures t.tree == old(t.tree)
  {
    var up := t.nodes[empty].parent;
    if up == 0 {
      t.root := replace;
    } else if empty == t.nodes[up].left {
      t.nodes := t.nodes[up := t.nodes[up].(left := replace)];
    } else {
      t.nodes := t.nodes[up := t.nodes[up].(right := replace)];
    }
    t.nodes := t.nodes[replace := t.nodes[replace].(parent := t.nodes[empty].parent)];
  }

  /** Below the root, a transplant of a node with at most one child by the
      child that takes its place is the cut of `CutWrites`: the store spells
      out `Unlink(t, sp)`. */
  lemma TransplantCut(t: Tree, sp: seq<Dir>, nodes: seq<NodeRecord>)
    requires Linked(t, nodes) && Distinct(t) && ValidPath(t, sp) && sp != []
    requires Sub(t, sp).Node? && !TwoChildren(Sub(t, sp))
    ensures var y := Sub(t, sp); var g := IdOf(Sub(t, Parent(sp))); var r := IdOf(Spliced(y));
            && 0 < y.id < |nodes| && r < |nodes| && 0 < g < |nodes| && nodes[y.id].parent == g
            && TransplantWrites(nodes, y.id, r) == CutWrites(nodes, g, Last(sp), r)
  {
    var y := Sub(t, sp);
    CutStore(t, sp, nodes);
    SubParent(t, sp);
    Nav(t, Parent(sp), nodes);
    ParentOutside(t, sp);
    assert y.id in Ids(y);
  }

  /** At the root, a transplant of the root by the child that takes its
      place leaves that child as the root of `Spliced(t)`, with `nil` as its
      `parent`. */
  lemma TransplantRoot(t: Tree, nodes: seq<NodeRecord>)
    requires Linked(t, nodes) && Distinct(t) && t.Node? && !TwoChildren(t)
    requires nodes[t.id].parent == 0
    ensures var r := IdOf(Spliced(t)); var n' := TransplantWrites(nodes, t.id, r);
            && r < |nodes| && n' == nodes[r := nodes[r].(parent := 0)]
            && Linked(Spliced(t), n') && Distinct(Spliced(t)) && Ids(Spliced(t)) == Ids(t) - {t.id}
  {
    var u := Spliced(t);
    var n' := nodes[IdOf(u) := nodes[IdOf(u)].(parent := 0)];
    assert Ids(t) == Ids(t.l) + {t.id} + Ids(t.r);
    LinkedIds(t, nodes);
    LinkedFrame(u, nodes, n');
  }

  /** What a record says about the `parent` of the node at `q`: `nil` at
      the root, else the slot of the node above. */
  lemma ParentLink(t: RbTree, q: seq<Dir>)
    requires Rooted(t) && ValidPath(t.tree, q) && Sub(t.tree, q).Node?
    ensures var x := Sub(t.tree, q).id;
            && 0 < x < |t.nodes| && t.nodes[x].parent < |t.nodes|
            && t.nodes[x].parent == (if q == [] then 0 else IdOf(Sub(t.tree, Parent(q))))
  {
    Nav(t.tree, q, t.nodes);
    if q != [] {
      SubParent(t.tree, q);
      Nav(t.tree, Parent(q), t.nodes);
    }
  }

  // ---------------------------------------------------------------------
  // Insert
  // ---------------------------------------------------------------------

  /** `rbtree_insert`: a node holding `key` is allocated (zeroed, so RED,
      with `nil` links), the descent keeps the last node passed as `p`,
      the node is hung under `p` (left when `key` is smaller than `p`'s
      key, right otherwise, the root when `p` is `nil`), and the fixup
      runs.  The in-order keys gain `key` after its equals, and the tree
      stays a valid red-black search tree. */
  method Insert(t: RbTree, key: Key) returns (node: nat)
    requires Rooted(t) && ValidRB(t.tree)
    modifies t
    ensures Rooted(t) && ValidRB(t.tree)
    ensures InOrder(t.tree) == InsertSorted(old(InOrder(t.tree)), key)
    ensures node == |old(t.nodes)| && |t.nodes| == node + 1
    ensures Ids(t.tree) == old(Ids(t.tree)) + {node}
    ensures t.nodes[node].key == key
    ensures StoreFrame(old(t.nodes), t.nodes, old(Ids(t.tree)))
  {
    ghost var t0 := t.tree;
    ghost var n0 := t.nodes;
    ghost var ip := InsertPath(t0, key);
    var p := Descend(t, key);
    node := |t.nodes|;
    t.nodes := t.nodes + [NodeRecord(Red, 0, 0, 0, 0)];
    t.nodes := t.nodes[node := t.nodes[node].(key := key)];
    assert t.nodes[..node] == n0;
    Attach(t, key, node, p);
    ghost var n2 := t.nodes;
    InsertFixup(t, node, ip);
    StoreFrameTrans(n0, n2, t.nodes, Ids(t0), Ids(t0) + {node});
    assert t.nodes[node].key == n2[node].key;
    OrderedIffSorted(t0);
    InsertSortedFacts(InOrder(t0), key);
    OrderedIffSorted(t.tree);
  }

  /** The descent of `rbtree_insert`: from the root, left when `key` is
      smaller than the node's key and right otherwise, keeping the last
      node passed; it ends under the position where `key` is hung
      (`nil` when the tree is empty). */
  method Descend(t: RbTree, key: Key) returns (p: nat)
    requires Rooted(t)
    ensures var ip := InsertPath(t.tree, key);
            && p == (if ip == [] then 0 else IdOf(Sub(t.tree, Parent(ip))))
            && (ip != [] ==> ValidPath(t.tree, Parent(ip)) && Sub(t.tree, Parent(ip)).Node?
                             && Last(ip) == (if key < Sub(t.tree, Parent(ip)).k then L else R))
  {
    ghost var ip := InsertPath(t.tree, key);
    var now := t.root;
    p := 0;
    ghost var cp: seq<Dir> := [];
    while now != 0
      invariant ValidPath(t.tree, cp) && IdOf(Sub(t.tree, cp)) == now
      invariant cp != [] ==> ValidPath(t.tree, Parent(cp)) && Sub(t.tree, Parent(cp)).Node?
      invariant p == (if cp == [] then 0 else IdOf(Sub(t.tree, Parent(cp))))
      invariant cp != [] ==> Last(cp) == (if key < Sub(t.tree, Parent(cp)).k then L else R)
      invariant ip == cp + InsertPath(Sub(t.tree, cp), key)
      decreases |InsertPath(Sub(t.tree, cp), key)|
    {
      Nav(t.tree, cp, t.nodes);
      InsertPathStep(t.tree, cp, key);
      p := now;
      if key < t.nodes[now].key {
        now := t.nodes[now].left;
        cp := cp + [L];
      } else {
        now := t.nodes[now].right;
        cp := cp + [R];
      }
    }
    Nav(t.tree, cp, t.nodes);
    assert ip == cp;
  }

  /** The writes of `rbtree_insert` once the descent has ended under `p`:
      the new node `node` (the last slot, holding `key`) is linked under
      `p`, or becomes the root, and the tree gains it as a RED leaf. */
  method Attach(t: RbTree, key: Key, node: nat, p: nat)
    requires |t.nodes| == node + 1 && t.nodes[node] == NodeRecord(Red, key, 0, 0, 0)
    requires Linked(t.tree, t.nodes[..node]) && Distinct(t.tree) && ValidRB(t.tree)
    requires t.nodes[0].color == Black && t.root == IdOf(t.tree)
    requires t.root < |t.nodes| && (t.root != 0 ==> t.nodes[t.root].parent == 0)
    requires var ip := InsertPath(t.tree, key);
             && p == (if ip == [] then 0 else IdOf(Sub(t.tree, Parent(ip))))
             && (ip != [] ==> ValidPath(t.tree, Parent(ip)) && Sub(t.tree, Parent(ip)).Node?
                              && Last(ip) == (if key < Sub(t.tree, Parent(ip)).k then L else R))
    modifies t
    ensures Rooted(t) && t.tree == Hang(old(t.tree), key, node)
    ensures InsertFixInv(t.tree, InsertPath(old(t.tree), key)) && Sub(t.tree, InsertPath(old(t.tree), key)).id == node
    ensures Ids(t.tree) == old(Ids(t.tree)) + {node} && InOrder(t.tree) == InsertSorted(old(InOrder(t.tree)), key)
    ensures |t.nodes| == node + 1 && StoreFrame(old(t.nodes[..node]), t.nodes, old(Ids(t.tree)))
    ensures t.nodes[node].key == key
  {
    ghost var t0 := t.tree;
    ghost var n0 := t.nodes[..node];
    assert t.nodes == n0 + [NodeRecord(Red, key, 0, 0, 0)];
    HookReady(t0, key, node, n0, p);
    var nodes := t.nodes;
    nodes := nodes[node := nodes[node].(parent := p)];
    if p == 0 {
      t.root := node;
    } else if nodes[node].key < nodes[p].key {
      nodes := nodes[p := nodes[p].(left := node)];
    } else {
      nodes := nodes[p := nodes[p].(right := node)];
    }
    nodes := nodes[node := nodes[node].(left := 0)];
    nodes := nodes[node := nodes[node].(right := 0)];
    nodes := nodes[node := nodes[node].(color := Red)];
    assert nodes == HookWrites(t.nodes, node, p);
    t.nodes := nodes;
    t.tree := Hang(t0, key, node);
  }

  /** The records after `rbtree_insert` has linked the new node `x` under
      `p`: its parent link, the link of `p` on the side its key chooses
      (or the root, when `p` is `nil`), its `nil` children and its RED
      colour. */
  function HookWrites(n: seq<NodeRecord>, x: nat, p: nat): (n': seq<NodeRecord>)
    requires x < |n| && p < |n|
    ensures |n'| == |n|
    ensures x != p ==> n'[x] == NodeRecord(Red, n[x].key, p, 0, 0)
    ensures x != p && p != 0 ==> n'[p] == SetLink(n[p], if n[x].key < n[p].key then L else R, x)
    ensures forall i | 0 <= i < |n| && i != x && (p == 0 || i != p) :: n'[i] == n[i]
  {
    var n1 := n[x := n[x].(parent := p)];
    var n2 := if p == 0 then n1
              else if n1[x].key < n1[p].key then n1[p := n1[p].(left := x)]
              else n1[p := n1[p].(right := x)];
    var n3 := n2[x := n2[x].(left := 0)];
    var n4 := n3[x := n3[x].(right := 0)];
    n4[x := n4[x].(color := Red)]
  }

  /** Hanging the new node where the descent ended links the store to the
      tree with the node hung. */
  lemma HookReady(t: Tree, key: Key, x: nat, nodes: seq<NodeRecord>, p: nat)
    requires Linked(t, nodes) && Distinct(t) && ValidRB(t) && x == |nodes|
    requires var ip := InsertPath(t, key);
             && p == (if ip == [] then 0 else IdOf(Sub(t, Parent(ip))))
             && (ip != [] ==> ValidPath(t, Parent(ip)) && Sub(t, Parent(ip)).Node?
                              && Last(ip) == (if key < Sub(t, Parent(ip)).k then L else R))
    ensures p < x && (p == 0 <==> InsertPath(t, key) == [])
    ensures var n' := HookWrites(nodes + [NodeRecord(Red, key, 0, 0, 0)], x, p);
            var h := Hang(t, key, x); var ip := InsertPath(t, key);
            && Linked(h, n') && Distinct(h) && Ids(h) == Ids(t) + {x}
            && InsertFixInv(h, ip) && Sub(h, ip).id == x
            && IdOf(h) == (if ip == [] then x else IdOf(t))
            && InOrder(h) == InsertSorted(InOrder(t), key)
            && StoreFrame(nodes, n', Ids(t)) && n'[0] == nodes[0]
            && (ip == [] ==> n'[x].parent == 0)
            && (ip != [] ==> t.Node? && n'[t.id].parent == nodes[t.id].parent)
  {
    var ip := InsertPath(t, key);
    var n1 := nodes + [NodeRecord(Red, key, 0, 0, 0)];
    if ip != [] {
      Nav(t, Parent(ip), nodes);
      NodeIdIn(t, Parent(ip));
    }
    var n' := HookWrites(n1, x, p);
    LinkedIds(t, nodes);
    HangReady(t, key, x, nodes, n');
    if ip != [] {
      assert t.id in Ids(t);
    }
  }

  /** `rbtree_insert_fixup`: from a tree whose only defect is the RED node
      `node` (at `p`) under a RED parent, or a RED root, the loop climbs
      while the parent is RED, then the root is painted BLACK.  Every
      colour invariant holds afterwards; keys and the set of nodes are
      unchanged. */
  method InsertFixup(t: RbTree, node: nat, ghost p: seq<Dir>)
    requires Rooted(t) && InsertFixInv(t.tree, p) && Sub(t.tree, p).id == node
    modifies t
    ensures Rooted(t) && IsRB(t.tree)
    ensures InOrder(t.tree) == old(InOrder(t.tree)) && Ids(t.tree) == old(Ids(t.tree))
    ensures |t.nodes| == |old(t.nodes)| && StoreFrame(old(t.nodes), t.nodes, old(Ids(t.tree)))
  {
    ghost var t0 := t.tree;
    ghost var n0 := t.nodes;
    var cur := node;
    ghost var q := p;
    ParentLink(t, q);
    while t.nodes[t.nodes[cur].parent].color == Red
      invariant Rooted(t) && InsertFixInv(t.tree, q) && Sub(t.tree, q).id == cur
      invariant cur < |t.nodes| && t.nodes[cur].parent < |t.nodes|
      invariant t.nodes[cur].parent == (if q == [] then 0 else IdOf(Sub(t.tree, Parent(q))))
      invariant InOrder(t.tree) == InOrder(t0) && Ids(t.tree) == Ids(t0)
      invariant |t.nodes| == |n0| && StoreFrame(n0, t.nodes, Ids(t0))
      decreases |q|
    {
      ghost var n1 := t.nodes;
      if q != [] {
        SubParent(t.tree, q);
        Nav(t.tree, Parent(q), t.nodes);
      }
      cur, q := InsertFixStep(t, cur, q);
      StoreFrameTrans(n0, n1, t.nodes, Ids(t0), Ids(t0));
      ParentLink(t, q);
    }
    ghost var t1 := t.tree;
    if q == [] {
      InsertFixRoot(t1);
    } else {
      SubParent(t1, q);
      Nav(t1, Parent(q), t.nodes);
      InsertFixBlackParent(t1, q);
      RecolorRootOfRB(t1);
    }
    ghost var n1 := t.nodes;
    Paint(t, t.root, Black, []);
    StoreFrameTrans(n0, n1, t.nodes, Ids(t0), Ids(t0));
  }

  /** One round of the loop of `rbtree_insert_fixup`, the parent being
      RED: case 1 (RED uncle) recolours and climbs to the grandparent;
      cases 2 and 3 (BLACK uncle) restructure, after which the node's
      parent is BLACK.  Either way the defect's position gets shorter. */
  method InsertFixStep(t: RbTree, node: nat, ghost p: seq<Dir>) returns (node': nat, ghost p': seq<Dir>)
    requires Rooted(t) && InsertFixInv(t.tree, p) && Sub(t.tree, p).id == node
    requires p != [] && ColorOf(Sub(t.tree, Parent(p))) == Red
    modifies t
    ensures Rooted(t) && InsertFixInv(t.tree, p') && Sub(t.tree, p').id == node' && |p'| < |p|
    ensures InOrder(t.tree) == old(InOrder(t.tree)) && Ids(t.tree) == old(Ids(t.tree))
    ensures |t.nodes| == |old(t.nodes)| && StoreFrame(old(t.nodes), t.nodes, old(Ids(t.tree)))
  {
    ghost var t0 := t.tree;
    InsertFixRedParent(t0, p);
    PathTwo(p);
    ghost var pp := Parent(p);
    ghost var gp := Parent(pp);
    ghost var up := Sibling(pp);
    SubParent(t0, p);
    Nav(t0, p, t.nodes);
    Nav(t0, pp, t.nodes);
    Nav(t0, gp, t.nodes);
    Nav(t0, up, t.nodes);
    SidesDifferAt(t0, gp);
    var parentNode := t.nodes[node].parent;
    var grandNode := t.nodes[parentNode].parent;
    var isLeft := parentNode == t.nodes[grandNode].left;
    var uncle := if isLeft then t.nodes[grandNode].right else t.nodes[grandNode].left;
    if t.nodes[uncle].color == Red {
      InsertFixRecolor(t0, p);
      InsertRecolor(t, parentNode, uncle, grandNode, p);
      node', p' := grandNode, gp;
    } else {
      node', p' := InsertRestructure(t, node, parentNode, isLeft, p);
    }
  }

  /** Case 1: parent and uncle are painted BLACK and the grandparent RED. */
  method InsertRecolor(t: RbTree, parentNode: nat, uncle: nat, grandNode: nat, ghost p: seq<Dir>)
    requires Rooted(t) && |p| >= 2 && ValidPath(t.tree, p)
    requires Sub(t.tree, Parent(p)).Node? && Sub(t.tree, Parent(p)).id == parentNode
    requires Sub(t.tree, Sibling(Parent(p))).Node? && Sub(t.tree, Sibling(Parent(p))).id == uncle
    requires Sub(t.tree, Parent(Parent(p))).Node? && Sub(t.tree, Parent(Parent(p))).id == grandNode
    modifies t
    ensures Rooted(t)
    ensures t.tree == RecolorAt(RecolorAt(RecolorAt(old(t.tree), Parent(p), Black), Sibling(Parent(p)), Black),
                                Parent(Parent(p)), Red)
    ensures Sub(t.tree, Parent(Parent(p))).Node? && Sub(t.tree, Parent(Parent(p))).id == grandNode
    ensures |t.nodes| == |old(t.nodes)| && StoreFrame(old(t.nodes), t.nodes, old(Ids(t.tree)))
  {
    ghost var t0 := t.tree;
    ghost var n0 := t.nodes;
    ghost var pp := Parent(p);
    ghost var gp := Parent(pp);
    ghost var up := Sibling(pp);
    SubParent(t0, p);
    SubParent(t0, pp);
    PathTwo(p);
    SubAppend(t0, gp, Flip(Last(pp)));
    RecolorKeeps(t0, pp, Black, up);
    RecolorKeeps(t0, pp, Black, gp);
    Paint(t, parentNode, Black, pp);
    RecolorKeeps(t.tree, up, Black, gp);
    Paint(t, uncle, Black, up);
    RecolorKeeps(t.tree, gp, Red, gp);
    Paint(t, grandNode, Red, gp);
  }

  /** Cases 2 and 3 (the uncle is BLACK).  When the node is the inner
      child of its parent (case 2), `node` moves up to the parent and the
      parent goes down on the outer side, which puts the two on a line;
      then case 3 runs from the node's new position. */
  method InsertRestructure(t: RbTree, node: nat, parentNode: nat, isLeft: bool, ghost p: seq<Dir>)
    returns (node': nat, ghost p': seq<Dir>)
    requires Rooted(t) && InsertFixInv(t.tree, p) && |p| >= 2 && Sub(t.tree, p).id == node
    requires Sub(t.tree, Parent(p)).Node? && Sub(t.tree, Parent(p)).id == parentNode
    requires ColorOf(Sub(t.tree, Parent(p))) == Red && ColorOf(Sub(t.tree, Sibling(Parent(p)))) == Black
    requires isLeft <==> Last(Parent(p)) == L
    modifies t
    ensures Rooted(t) && InsertFixInv(t.tree, p') && Sub(t.tree, p').id == node' && |p'| < |p|
    ensures InOrder(t.tree) == old(InOrder(t.tree)) && Ids(t.tree) == old(Ids(t.tree))
    ensures |t.nodes| == |old(t.nodes)| && StoreFrame(old(t.nodes), t.nodes, old(Ids(t.tree)))
  {
    ghost var t0 := t.tree;
    ghost var n0 := t.nodes;
    TriangleIds(t0, p, t.nodes);
    node' := node;
    ghost var q := p;
    if node' == (if isLeft then t.nodes[parentNode].right else t.nodes[parentNode].left) {
      node', q := InsertTriangle(t, parentNode, isLeft, p);
    }
    ghost var n1 := t.nodes;
    InsertLine(t, node', isLeft, q);
    StoreFrameTrans(n0, n1, t.nodes, Ids(t0), Ids(t0));
    p' := Parent(q);
  }

  /** Whether the node at `p` is the inner child of its parent, read off
      the parent's record. */
  lemma TriangleIds(t: Tree, p: seq<Dir>, nodes: seq<NodeRecord>)
    requires Linked(t, nodes) && Distinct(t) && InsertFixInv(t, p) && |p| >= 2
    ensures var s := Sub(t, Parent(p)); var a := Last(Parent(p));
            && s.Node? && s.id < |nodes|
            && (Sub(t, p).id == (if a == L then nodes[s.id].right else nodes[s.id].left) <==> Last(p) == Flip(a))
  {
    SubParent(t, p);
    Nav(t, Parent(p), nodes);
    SidesDifferAt(t, Parent(p));
  }

  /** Case 2: the node is the inner child of its parent, which goes down
      on the outer side; the old parent is then the lower end of a line
      of two RED nodes, one level below where the node was. */
  method InsertTriangle(t: RbTree, parentNode: nat, isLeft: bool, ghost p: seq<Dir>)
    returns (node': nat, ghost q: seq<Dir>)
    requires Rooted(t) && InsertFixInv(t.tree, p) && |p| >= 2
    requires Sub(t.tree, Parent(p)).Node? && Sub(t.tree, Parent(p)).id == parentNode
    requires ColorOf(Sub(t.tree, Parent(p))) == Red && ColorOf(Sub(t.tree, Sibling(Parent(p)))) == Black
    requires (isLeft <==> Last(Parent(p)) == L) && Last(p) == Flip(Last(Parent(p)))
    modifies t
    ensures node' == parentNode && |q| == |p| && Parent(q) == Parent(p) && Last(q) == Last(Parent(p))
    ensures Rooted(t) && InsertFixInv(t.tree, q) && Sub(t.tree, q).id == node'
    ensures ColorOf(Sub(t.tree, Parent(q))) == Red && ColorOf(Sub(t.tree, Sibling(Parent(q)))) == Black
    ensures InOrder(t.tree) == old(InOrder(t.tree)) && Ids(t.tree) == old(Ids(t.tree))
    ensures |t.nodes| == |old(t.nodes)| && StoreFrame(old(t.nodes), t.nodes, old(Ids(t.tree)))
  {
    ghost var pp := Parent(p);
    ghost var a := Last(pp);
    SubParent(t.tree, p);
    InsertFixTrianglePractice(t.tree, p);
    RotateSub(t.tree, pp, a);
    node' := parentNode;
    if isLeft {
      LeftRotate(t, node', pp);
    } else {
      RightRotate(t, node', pp);
    }
    q := pp + [a];
  }

  /** Case 3: node and parent lie on a line on side `a` (left when
      `isLeft`); the parent is painted BLACK, the grandparent RED, and the
      grandparent goes down on the other side.  The node ends one level
      higher, under a BLACK parent, in a valid tree. */
  method InsertLine(t: RbTree, node: nat, isLeft: bool, ghost p: seq<Dir>)
    requires Rooted(t) && InsertFixInv(t.tree, p) && |p| >= 2 && Sub(t.tree, p).id == node
    requires ColorOf(Sub(t.tree, Parent(p))) == Red && ColorOf(Sub(t.tree, Sibling(Parent(p)))) == Black
    requires Last(p) == Last(Parent(p)) && (isLeft <==> Last(Parent(p)) == L)
    modifies t
    ensures Rooted(t) && InsertFixInv(t.tree, Parent(p)) && Sub(t.tree, Parent(p)).id == node
    ensures InOrder(t.tree) == old(InOrder(t.tree)) && Ids(t.tree) == old(Ids(t.tree))
    ensures |t.nodes| == |old(t.nodes)| && StoreFrame(old(t.nodes), t.nodes, old(Ids(t.tree)))
  {
    ghost var t0 := t.tree;
    ghost var n0 := t.nodes;
    ghost var pp := Parent(p);
    ghost var gp := Parent(pp);
    InsertFixLinePractice(t0, p);
    LineIds(t0, p, t.nodes);
    var up := t.nodes[node].parent;
    Paint(t, up, Black, pp);
    ghost var n1 := t.nodes;
    var grand := t.nodes[up].parent;
    Paint(t, grand, Red, gp);
    ghost var n2 := t.nodes;
    if isLeft {
      RightRotate(t, grand, gp);
    } else {
      LeftRotate(t, grand, gp);
    }
    StoreFrameTrans(n0, n1, n2, Ids(t0), Ids(t0));
    StoreFrameTrans(n0, n2, t.nodes, Ids(t0), Ids(t0));
  }

  /** Where the nodes of case 3 sit through its two recolourings and its
      rotation: parent and grandparent are found through the records, and
      the node ends at its parent's old position. */
  lemma LineIds(t: Tree, p: seq<Dir>, nodes: seq<NodeRecord>)
    requires Linked(t, nodes) && Distinct(t) && InsertFixInv(t, p) && |p| >= 2
    requires ColorOf(Sub(t, Parent(p))) == Red && Last(p) == Last(Parent(p))
    ensures var pp := Parent(p); var gp := Parent(pp); var a := Last(pp);
            var t1 := RecolorAt(t, pp, Black); var t2 := RecolorAt(t1, gp, Red);
            var t3 := RotateAt(t2, gp, Flip(a));
            && ValidPath(t, pp) && Sub(t, pp).Node? && Sub(t, p).id < |nodes| && Sub(t, pp).id < |nodes|
            && nodes[Sub(t, p).id].parent == Sub(t, pp).id
            && ValidPath(t1, gp) && Sub(t1, gp).Node?
            && nodes[Sub(t, pp).id].parent == Sub(t1, gp).id
            && ValidPath(t2, gp) && Sub(t2, gp).Node? && Sub(t2, gp).id == Sub(t1, gp).id
            && Child(Sub(t2, gp), a).Node?
            && ValidPath(t3, pp) && Sub(t3, pp).Node? && Sub(t3, pp).id == Sub(t, p).id
  {
    var pp := Parent(p);
    var gp := Parent(pp);
    var a := Last(pp);
    var t1 := RecolorAt(t, pp, Black);
    var t2 := RecolorAt(t1, gp, Red);
    InsertFixRedParent(t, p);
    PathTwo(p);
    SubParent(t, p);
    Nav(t, p, nodes);
    Nav(t, pp, nodes);
    RecolorKeeps(t, pp, Black, p);
    RecolorKeeps(t, pp, Black, pp);
    RecolorKeeps(t, pp, Black, gp);
    RecolorKeeps(t1, gp, Red, p);
    RecolorKeeps(t1, gp, Red, pp);
    RecolorKeeps(t1, gp, Red, gp);
    SubParent(t2, p);
    SubParent(t2, pp);
    RotateSub(t2, gp, Flip(a));
    assert Flip(Flip(a)) == a;
  }

  // ---------------------------------------------------------------------
  // Erase fixup
  // ---------------------------------------------------------------------

  /** The state `rbtree_erase_fixup` works from: `node`, possibly `nil`,
      is the top of the subtree at `xp`, which is one BLACK short of black
      height `h`; its `parent` (for `nil` too) names the node above it.  At
      the root only the root's colour can be wrong. */
  ghost predicate FixupAt(t: RbTree, node: nat, xp: seq<Dir>, h: int)
    reads t
  {
    && Rooted(t) && ValidPath(t.tree, xp) && node == IdOf(Sub(t.tree, xp)) && node < |t.nodes|
    && (xp == [] ==> IsRB(RecolorAt(t.tree, [], Black)))
    && (xp != [] ==> EraseFixInv(t.tree, xp, h) && t.nodes[node].parent == IdOf(Sub(t.tree, Parent(xp))))
  }

  /** The loop test of `rbtree_erase_fixup` read on the state: `node` is
      the root exactly at the top, and its record holds its colour (`nil`
      is BLACK). */
  lemma FixupFacts(t: RbTree, node: nat, xp: seq<Dir>, h: int)
    requires FixupAt(t, node, xp, h)
    ensures (node == t.root <==> xp == []) && t.nodes[node].color == ColorOf(Sub(t.tree, xp))
  {
    Nav(t.tree, xp, t.nodes);
    Nav(t.tree, [], t.nodes);
  }

  /** The `parent` of the node at `xp` read from the records, given that
      `nil`'s record was kept. */
  lemma FixupParent(t: RbTree, node: nat, xp: seq<Dir>)
    requires Rooted(t) && ValidPath(t.tree, xp) && xp != [] && node == IdOf(Sub(t.tree, xp))
    requires node == 0 ==> t.nodes[0].parent == IdOf(Sub(t.tree, Parent(xp)))
    ensures node < |t.nodes| && t.nodes[node].parent == IdOf(Sub(t.tree, Parent(xp)))
  {
    Nav(t.tree, xp, t.nodes);
  }

  /** The parent of the position `xp` and its two sides as the records
      show them: which link of the parent leads to `xp`, and the sibling
      found through the other link. */
  lemma SidesAt(t: Tree, xp: seq<Dir>, nodes: seq<NodeRecord>)
    requires Linked(t, nodes) && Distinct(t) && xp != [] && ValidPath(t, Parent(xp))
    requires Sub(t, Parent(xp)).Node? && Child(Sub(t, Parent(xp)), Flip(Last(xp))).Node?
    ensures var pn := Sub(t, Parent(xp)); var s := Sub(t, Sibling(xp));
            && ValidPath(t, xp) && Sub(t, xp) == Child(pn, Last(xp))
            && ValidPath(t, Sibling(xp)) && s == Child(pn, Flip(Last(xp))) && s.Node?
            && 0 < pn.id < |nodes| && nodes[pn.id].color == pn.c
            && (IdOf(Sub(t, xp)) == nodes[pn.id].left <==> Last(xp) == L)
            && s.id == (if IdOf(Sub(t, xp)) == nodes[pn.id].left then nodes[pn.id].right else nodes[pn.id].left)
            && 0 < s.id < |nodes| && nodes[s.id].color == s.c && s.id != IdOf(Sub(t, xp))
  {
    var pp := Parent(xp);
    var d := Last(xp);
    assert xp == pp + [d];
    SubAppend(t, pp, d);
    SubAppend(t, pp, Flip(d));
    Nav(t, pp, nodes);
    Nav(t, Sibling(xp), nodes);
    SidesDifferAt(t, pp);
  }

  /** The parent and the sibling of the deficient node: the parent is
      what `node->parent` names, and the sibling is a node. */
  lemma SiblingIds(t: RbTree, node: nat, xp: seq<Dir>, h: int)
    requires FixupAt(t, node, xp, h) && xp != []
    ensures var pn := Sub(t.tree, Parent(xp)); var s := Sub(t.tree, Sibling(xp));
            && ValidPath(t.tree, Sibling(xp)) && pn.Node? && s.Node?
            && 0 < pn.id < |t.nodes| && t.nodes[node].parent == pn.id
            && (node == t.nodes[pn.id].left <==> Last(xp) == L)
            && s.id == (if node == t.nodes[pn.id].left then t.nodes[pn.id].right else t.nodes[pn.id].left)
            && 0 < s.id < |t.nodes| && t.nodes[s.id].color == s.c && s.id != node
  {
    EraseLocal(t.tree, xp, h);
    SidesAt(t.tree, xp, t.nodes);
  }

  /** `rbtree_erase_fixup`: while `node` is a BLACK non-root, the missing
      BLACK is pushed up (case 2) or the tree is restructured around the
      sibling (cases 1, 3 and 4) on the side `node` hangs on; then `node`
      is painted BLACK.  The colour invariants hold again; keys and nodes
      are unchanged. */
  method EraseFixup(t: RbTree, node: nat, ghost xp: seq<Dir>, ghost h: int)
    requires FixupAt(t, node, xp, h)
    modifies t
    ensures Rooted(t) && IsRB(t.tree)
    ensures InOrder(t.tree) == old(InOrder(t.tree)) && Ids(t.tree) == old(Ids(t.tree))
    ensures |t.nodes| == |old(t.nodes)| && StoreFrame(old(t.nodes), t.nodes, old(Ids(t.tree)))
  {
    ghost var t0 := t.tree;
    ghost var n0 := t.nodes;
    var cur := node;
    ghost var q := xp;
    FixupFacts(t, cur, q, h);
    while cur != t.root && t.nodes[cur].color == Black
      invariant FixupAt(t, cur, q, h)
      invariant InOrder(t.tree) == InOrder(t0) && Ids(t.tree) == Ids(t0)
      invariant |t.nodes| == |n0| && StoreFrame(n0, t.nodes, Ids(t0))
      decreases |q| + (if ColorOf(Sub(t.tree, q)) == Red then 0 else 1)
    {
      FixupFacts(t, cur, q, h);
      ghost var n1 := t.nodes;
      cur, q := EraseFixStep(t, cur, q, h);
      StoreFrameTrans(n0, n1, t.nodes, Ids(t0), Ids(t0));
      FixupFacts(t, cur, q, h);
    }
    FixupFacts(t, cur, q, h);
    if q != [] {
      EraseFixRed(t.tree, q, h);
    }
    ghost var n1 := t.nodes;
    Blacken(t, cur, q);
    StoreFrameTrans(n0, n1, t.nodes, Ids(t0), Ids(t0));
  }

  /** `node->color = RBTREE_BLACK` where `node` may be `nil`, which is
      BLACK already. */
  method Blacken(t: RbTree, x: nat, ghost p: seq<Dir>)
    requires Rooted(t) && ValidPath(t.tree, p) && IdOf(Sub(t.tree, p)) == x && x < |t.nodes|
    modifies t
    ensures Rooted(t) && t.tree == RecolorAt(old(t.tree), p, Black)
    ensures |t.nodes| == |old(t.nodes)| && StoreFrame(old(t.nodes), t.nodes, old(Ids(t.tree)))
  {
    Nav(t.tree, p, t.nodes);
    if x != 0 {
      Paint(t, x, Black, p);
    } else {
      assert t.nodes[0].(color := Black) == t.nodes[0];
      t.nodes := t.nodes[0 := t.nodes[0].(color := Black)];
      assert t.nodes == old(t.nodes);
    }
  }

  /** One round of the loop of `rbtree_erase_fixup` on a BLACK non-root
      `node`: case 1 when the sibling is RED, then case 2, or cases 3 and
      4.  The measure `|xp|`, less one when the node is RED, goes down. */
  method EraseFixStep(t: RbTree, node: nat, ghost xp: seq<Dir>, ghost h: int) returns (node': nat, ghost xp': seq<Dir>)
    requires FixupAt(t, node, xp, h) && xp != [] && ColorOf(Sub(t.tree, xp)) == Black
    modifies t
    ensures FixupAt(t, node', xp', h)
    ensures |xp'| + (if ColorOf(Sub(t.tree, xp')) == Red then 0 else 1) < |xp| + 1
    ensures InOrder(t.tree) == old(InOrder(t.tree)) && Ids(t.tree) == old(Ids(t.tree))
    ensures |t.nodes| == |old(t.nodes)| && StoreFrame(old(t.nodes), t.nodes, old(Ids(t.tree)))
  {
    ghost var t0 := t.tree;
    ghost var n0 := t.nodes;
    SiblingIds(t, node, xp, h);
    var isLeft := node == t.nodes[t.nodes[node].parent].left;
    var bro := if isLeft then t.nodes[t.nodes[node].parent].right else t.nodes[t.nodes[node].parent].left;
    ghost var q := xp;
    if t.nodes[bro].color == Red {
      bro, q := EraseRedSibling(t, node, bro, isLeft, xp, h);
    }
    ghost var n1 := t.nodes;
    node', xp' := EraseBlackSibling(t, node, bro, isLeft, q, h);
    StoreFrameTrans(n0, n1, t.nodes, Ids(t0), Ids(t0));
  }

  /** Where the nodes of case 1 sit through its two recolourings and its
      rotation. */
  lemma RedSiblingIds(t: Tree, xp: seq<Dir>, h: int)
    requires EraseFixInv(t, xp, h) && xp != [] && ColorOf(Sub(t, Sibling(xp))) == Red
    ensures var pp := Parent(xp); var d := Last(xp); var sib := Sibling(xp);
            var t1 := RecolorAt(t, sib, Black); var t2 := RecolorAt(t1, pp, Red);
            var t3 := RotateAt(t2, pp, d);
            && ValidPath(t, sib) && Sub(t, sib).Node? && ValidPath(t, pp) && Sub(t, pp).Node?
            && ValidPath(t1, pp) && Sub(t1, pp).Node? && Sub(t1, pp).id == Sub(t, pp).id
            && ValidPath(t2, pp) && Sub(t2, pp).Node? && Sub(t2, pp).id == Sub(t, pp).id
            && Child(Sub(t2, pp), Flip(d)).Node?
            && ValidPath(t3, pp + [d]) && IdOf(Sub(t3, pp + [d])) == Sub(t, pp).id
  {
    var pp := Parent(xp);
    var d := Last(xp);
    var sib := Sibling(xp);
    var t1 := RecolorAt(t, sib, Black);
    var t2 := RecolorAt(t1, pp, Red);
    EraseLocal(t, xp, h);
    RecolorKeeps(t, sib, Black, pp);
    RecolorKeeps(t, sib, Black, sib);
    RecolorKeeps(t1, pp, Red, pp);
    RecolorKeeps(t1, pp, Red, sib);
    SubParent(t2, sib);
    RotateSub(t2, pp, d);
  }

  /** Case 1 (the sibling is RED): the sibling is painted BLACK, the parent
      RED, and the parent goes down on `node`'s side; `node` keeps its
      place under its parent and gets a BLACK sibling, re-read from the
      parent's record. */
  method EraseRedSibling(t: RbTree, node: nat, bro: nat, isLeft: bool, ghost xp: seq<Dir>, ghost h: int)
    returns (bro': nat, ghost q: seq<Dir>)
    requires FixupAt(t, node, xp, h) && xp != [] && ColorOf(Sub(t.tree, xp)) == Black
    requires isLeft <==> Last(xp) == L
    requires Sub(t.tree, Sibling(xp)).Node? && Sub(t.tree, Sibling(xp)).id == bro && Sub(t.tree, Sibling(xp)).c == Red
    modifies t
    ensures FixupAt(t, node, q, h) && q != [] && |q| == |xp| + 1 && Last(q) == Last(xp)
    ensures ColorOf(Sub(t.tree, q)) == Black && ColorOf(Sub(t.tree, Parent(q))) == Red
    ensures Sub(t.tree, Sibling(q)).Node? && Sub(t.tree, Sibling(q)).id == bro' && Sub(t.tree, Sibling(q)).c == Black
    ensures InOrder(t.tree) == old(InOrder(t.tree)) && Ids(t.tree) == old(Ids(t.tree))
    ensures |t.nodes| == |old(t.nodes)| && StoreFrame(old(t.nodes), t.nodes, old(Ids(t.tree)))
  {
    ghost var t0 := t.tree;
    ghost var n0 := t.nodes;
    ghost var pp := Parent(xp);
    ghost var d := Last(xp);
    RedSiblingIds(t0, xp, h);
    EraseFixRotateRedPractice(t0, xp, h);
    SiblingIds(t, node, xp, h);
    var parentNode := t.nodes[node].parent;
    Paint(t, bro, Black, Sibling(xp));
    ghost var n1 := t.nodes;
    Paint(t, parentNode, Red, pp);
    ghost var n2 := t.nodes;
    if isLeft {
      LeftRotate(t, parentNode, pp);
    } else {
      RightRotate(t, parentNode, pp);
    }
    StoreFrameTrans(n0, n1, n2, Ids(t0), Ids(t0));
    StoreFrameTrans(n0, n2, t.nodes, Ids(t0), Ids(t0));
    q := pp + [d, d];
    assert Parent(q) == pp + [d];
    FixupParent(t, node, q);
    SiblingIds(t, node, q, h);
    bro' := if isLeft then t.nodes[t.nodes[node].parent].right else t.nodes[t.nodes[node].parent].left;
  }

  /** The records of the children of the node at `p` hold their colours
      (`nil`'s is BLACK). */
  lemma ChildColors(t: Tree, p: seq<Dir>, nodes: seq<NodeRecord>)
    requires Linked(t, nodes) && Distinct(t) && |nodes| > 0 && nodes[0].color == Black
    requires ValidPath(t, p) && Sub(t, p).Node?
    ensures var n := Sub(t, p);
            && 0 < n.id < |nodes| && nodes[n.id].left < |nodes| && nodes[n.id].right < |nodes|
            && nodes[nodes[n.id].left].color == ColorOf(n.l) && nodes[nodes[n.id].right].color == ColorOf(n.r)
  {
    SubAppend(t, p, L);
    SubAppend(t, p, R);
    Nav(t, p, nodes);
    Nav(t, p + [L], nodes);
    Nav(t, p + [R], nodes);
  }

  /** Cases 2 to 4 (the sibling `bro` is BLACK).  Case 2 (both nephews
      BLACK) paints the sibling RED and moves up to the parent, whose
      colour is unchanged; otherwise cases 3 and 4 end the fixup at the
      root. */
  method EraseBlackSibling(t: RbTree, node: nat, bro: nat, isLeft: bool, ghost xp: seq<Dir>, ghost h: int)
    returns (node': nat, ghost xp': seq<Dir>)
    requires FixupAt(t, node, xp, h) && xp != [] && ColorOf(Sub(t.tree, xp)) == Black
    requires isLeft <==> Last(xp) == L
    requires Sub(t.tree, Sibling(xp)).Node? && Sub(t.tree, Sibling(xp)).id == bro && Sub(t.tree, Sibling(xp)).c == Black
    modifies t
    ensures FixupAt(t, node', xp', h)
    ensures xp' == [] || (xp' == Parent(xp) && ColorOf(Sub(t.tree, xp')) == old(ColorOf(Sub(t.tree, Parent(xp)))))
    ensures InOrder(t.tree) == old(InOrder(t.tree)) && Ids(t.tree) == old(Ids(t.tree))
    ensures |t.nodes| == |old(t.nodes)| && StoreFrame(old(t.nodes), t.nodes, old(Ids(t.tree)))
  {
    ghost var t0 := t.tree;
    SiblingIds(t, node, xp, h);
    ChildColors(t0, Sibling(xp), t.nodes);
    if t.nodes[t.nodes[bro].left].color == Black && t.nodes[t.nodes[bro].right].color == Black {
      node', xp' := ErasePushUp(t, node, bro, xp, h);
    } else {
      node', xp' := EraseNearFar(t, node, bro, isLeft, xp, h);
    }
  }

  /** Case 2 (a BLACK sibling with two BLACK children): the sibling is
      painted RED and the parent, found through `node->parent`, becomes
      the node to fix. */
  method ErasePushUp(t: RbTree, node: nat, bro: nat, ghost xp: seq<Dir>, ghost h: int)
    returns (node': nat, ghost xp': seq<Dir>)
    requires FixupAt(t, node, xp, h) && xp != [] && ColorOf(Sub(t.tree, xp)) == Black
    requires Sub(t.tree, Sibling(xp)).Node? && Sub(t.tree, Sibling(xp)).id == bro && Sub(t.tree, Sibling(xp)).c == Black
    requires ColorOf(Sub(t.tree, Sibling(xp)).l) == Black && ColorOf(Sub(t.tree, Sibling(xp)).r) == Black
    modifies t
    ensures xp' == Parent(xp) && FixupAt(t, node', xp', h)
    ensures ColorOf(Sub(t.tree, xp')) == old(ColorOf(Sub(t.tree, Parent(xp))))
    ensures InOrder(t.tree) == old(InOrder(t.tree)) && Ids(t.tree) == old(Ids(t.tree))
    ensures |t.nodes| == |old(t.nodes)| && StoreFrame(old(t.nodes), t.nodes, old(Ids(t.tree)))
  {
    ghost var t0 := t.tree;
    ghost var pp := Parent(xp);
    EraseFixPushUp(t0, xp, h);
    EraseLocal(t0, xp, h);
    SiblingIds(t, node, xp, h);
    RecolorKeeps(t0, Sibling(xp), Red, pp);
    Paint(t, bro, Red, Sibling(xp));
    node' := t.nodes[node].parent;
    xp' := pp;
    Nav(t.tree, pp, t.nodes);
    if pp == [] {
      EraseFixRoot(t.tree, h);
    }
  }

  /** Cases 3 and 4 (a BLACK sibling with a RED child): case 3 when the
      near nephew is RED, then case 4, after which the tree is valid and
      `node` becomes the root. */
  method EraseNearFar(t: RbTree, node: nat, bro: nat, isLeft: bool, ghost xp: seq<Dir>, ghost h: int)
    returns (node': nat, ghost xp': seq<Dir>)
    requires FixupAt(t, node, xp, h) && xp != [] && ColorOf(Sub(t.tree, xp)) == Black
    requires isLeft <==> Last(xp) == L
    requires Sub(t.tree, Sibling(xp)).Node? && Sub(t.tree, Sibling(xp)).id == bro && Sub(t.tree, Sibling(xp)).c == Black
    requires ColorOf(Sub(t.tree, Sibling(xp)).l) == Red || ColorOf(Sub(t.tree, Sibling(xp)).r) == Red
    modifies t
    ensures xp' == [] && node' == t.root && FixupAt(t, node', xp', h) && IsRB(t.tree)
    ensures InOrder(t.tree) == old(InOrder(t.tree)) && Ids(t.tree) == old(Ids(t.tree))
    ensures |t.nodes| == |old(t.nodes)| && StoreFrame(old(t.nodes), t.nodes, old(Ids(t.tree)))
  {
    ghost var t0 := t.tree;
    ghost var n0 := t.nodes;
    ghost var sib := Sibling(xp);
    ghost var d := Last(xp);
    SiblingIds(t, node, xp, h);
    SubAppend(t0, sib, d);
    Nav(t0, sib, t.nodes);
    Nav(t0, sib + [d], t.nodes);
    var near := if isLeft then t.nodes[bro].left else t.nodes[bro].right;
    assert near == IdOf(Child(Sub(t0, sib), d));
    var b := bro;
    if t.nodes[near].color == Red {
      b := EraseNearRed(t, node, bro, near, isLeft, xp, h);
    } else {
      EraseFarRedOfInv(t0, xp, h);
      assert ValidPath(t0, xp) by { EraseLocal(t0, xp, h); }
    }
    ghost var n1 := t.nodes;
    EraseFarRed(t, node, b, isLeft, xp, h);
    StoreFrameTrans(n0, n1, t.nodes, Ids(t0), Ids(t0));
    node' := t.root;
    xp' := [];
    RecolorRootOfRB(t.tree);
  }

  /** Where the nodes of case 3 sit through its two recolourings and its
      rotation at the sibling. */
  lemma NearRedIds(t: Tree, xp: seq<Dir>, h: int)
    requires EraseFixInv(t, xp, h) && xp != []
    requires Sub(t, Sibling(xp)).Node? && ColorOf(Child(Sub(t, Sibling(xp)), Last(xp))) == Red
    ensures var sib := Sibling(xp); var d := Last(xp);
            var t1 := RecolorAt(t, sib + [d], Black); var t2 := RecolorAt(t1, sib, Red);
            var t3 := RotateAt(t2, sib, Flip(d));
            && ValidPath(t, sib) && ValidPath(t, sib + [d]) && Sub(t, sib + [d]) == Child(Sub(t, sib), d)
            && ValidPath(t1, sib) && Sub(t1, sib).Node? && Sub(t1, sib).id == Sub(t, sib).id
            && ValidPath(t2, sib) && Sub(t2, sib).Node? && Sub(t2, sib).id == Sub(t, sib).id
            && Child(Sub(t2, sib), d).Node?
            && ValidPath(t3, Parent(xp)) && IdOf(Sub(t3, Parent(xp))) == IdOf(Sub(t, Parent(xp)))
  {
    var sib := Sibling(xp);
    var d := Last(xp);
    var pp := Parent(xp);
    var t1 := RecolorAt(t, sib + [d], Black);
    var t2 := RecolorAt(t1, sib, Red);
    EraseLocal(t, xp, h);
    SubAppend(t, sib, d);
    RecolorKeeps(t, sib + [d], Black, sib);
    RecolorKeeps(t, sib + [d], Black, sib + [d]);
    RecolorKeeps(t, sib + [d], Black, pp);
    RecolorKeeps(t1, sib, Red, sib);
    RecolorKeeps(t1, sib, Red, sib + [d]);
    RecolorKeeps(t1, sib, Red, pp);
    SubParent(t2, sib + [d]);
    assert !(sib <= pp);
    RotateOff(t2, sib, Flip(d), pp);
  }

  /** Case 3 (the near nephew is RED): the nephew is painted BLACK, the
      sibling RED, and the sibling goes down away from `node`; the new
      sibling, re-read from the parent's record, has a RED far child. */
  method EraseNearRed(t: RbTree, node: nat, bro: nat, near: nat, isLeft: bool, ghost xp: seq<Dir>, ghost h: int)
    returns (bro': nat)
    requires FixupAt(t, node, xp, h) && xp != [] && ColorOf(Sub(t.tree, xp)) == Black
    requires isLeft <==> Last(xp) == L
    requires Sub(t.tree, Sibling(xp)).Node? && Sub(t.tree, Sibling(xp)).id == bro && Sub(t.tree, Sibling(xp)).c == Black
    requires near == IdOf(Child(Sub(t.tree, Sibling(xp)), Last(xp)))
    requires ColorOf(Child(Sub(t.tree, Sibling(xp)), Last(xp))) == Red
    modifies t
    ensures Rooted(t) && EraseFarRedAt(t.tree, xp, h) && ValidPath(t.tree, xp)
    ensures node == IdOf(Sub(t.tree, xp)) && node < |t.nodes| && t.nodes[node].parent == IdOf(Sub(t.tree, Parent(xp)))
    ensures Sub(t.tree, Sibling(xp)).Node? && Sub(t.tree, Sibling(xp)).id == bro'
    ensures InOrder(t.tree) == old(InOrder(t.tree)) && Ids(t.tree) == old(Ids(t.tree))
    ensures |t.nodes| == |old(t.nodes)| && StoreFrame(old(t.nodes), t.nodes, old(Ids(t.tree)))
  {
    ghost var t0 := t.tree;
    ghost var n0 := t.nodes;
    ghost var sib := Sibling(xp);
    ghost var d := Last(xp);
    NearRedIds(t0, xp, h);
    EraseFixNearRedPractice(t0, xp, h);
    Paint(t, near, Black, sib + [d]);
    ghost var n1 := t.nodes;
    Paint(t, bro, Red, sib);
    ghost var n2 := t.nodes;
    if isLeft {
      RightRotate(t, bro, sib);
    } else {
      LeftRotate(t, bro, sib);
    }
    StoreFrameTrans(n0, n1, n2, Ids(t0), Ids(t0));
    StoreFrameTrans(n0, n2, t.nodes, Ids(t0), Ids(t0));
    FixupParent(t, node, xp);
    SidesAt(t.tree, xp, t.nodes);
    bro' := if isLeft then t.nodes[t.nodes[node].parent].right else t.nodes[t.nodes[node].parent].left;
  }

  /** Where the nodes of case 4 sit through its three recolourings. */
  lemma FarRedIds(t: Tree, xp: seq<Dir>, h: int)
    requires EraseFarRedAt(t, xp, h)
    ensures var pp := Parent(xp); var sib := Sibling(xp); var d := Last(xp);
            var t1 := RecolorAt(t, sib, ColorOf(Sub(t, pp)));
            var t2 := RecolorAt(t1, pp, Black);
            var t3 := RecolorAt(t2, sib + [Flip(d)], Black);
            && ValidPath(t, pp) && Sub(t, pp).Node? && ValidPath(t, sib) && Sub(t, sib).Node?
            && Sub(t, sib) == Child(Sub(t, pp), Flip(d))
            && ValidPath(t, sib + [Flip(d)]) && Sub(t, sib + [Flip(d)]) == Child(Sub(t, sib), Flip(d))
            && ValidPath(t1, pp) && Sub(t1, pp).Node? && Sub(t1, pp).id == Sub(t, pp).id
            && ValidPath(t2, sib + [Flip(d)]) && Sub(t2, sib + [Flip(d)]).Node?
            && Sub(t2, sib + [Flip(d)]).id == Sub(t, sib + [Flip(d)]).id
            && ValidPath(t3, pp) && Sub(t3, pp).Node? && Sub(t3, pp).id == Sub(t, pp).id
            && Child(Sub(t3, pp), Flip(d)).Node?
  {
    var pp := Parent(xp);
    var sib := Sibling(xp);
    var d := Last(xp);
    var t1 := RecolorAt(t, sib, ColorOf(Sub(t, pp)));
    var t2 := RecolorAt(t1, pp, Black);
    var t3 := RecolorAt(t2, sib + [Flip(d)], Black);
    SubAppend(t, pp, Flip(d));
    SubAppend(t, sib, Flip(d));
    RecolorKeeps(t, sib, ColorOf(Sub(t, pp)), pp);
    RecolorKeeps(t, sib, ColorOf(Sub(t, pp)), sib);
    RecolorKeeps(t, sib, ColorOf(Sub(t, pp)), sib + [Flip(d)]);
    RecolorKeeps(t1, pp, Black, pp);
    RecolorKeeps(t1, pp, Black, sib);
    RecolorKeeps(t1, pp, Black, sib + [Flip(d)]);
    RecolorKeeps(t2, sib + [Flip(d)], Black, pp);
    RecolorKeeps(t2, sib + [Flip(d)], Black, sib);
    SubParent(t3, sib);
  }

  /** Case 4 (the far nephew is RED): the sibling takes the parent's
      colour, the parent and the far nephew turn BLACK, and the parent
      goes down on `node`'s side; the tree is valid again. */
  method EraseFarRed(t: RbTree, node: nat, bro: nat, isLeft: bool, ghost xp: seq<Dir>, ghost h: int)
    requires Rooted(t) && EraseFarRedAt(t.tree, xp, h) && ValidPath(t.tree, xp)
    requires node == IdOf(Sub(t.tree, xp)) && node < |t.nodes| && t.nodes[node].parent == IdOf(Sub(t.tree, Parent(xp)))
    requires isLeft <==> Last(xp) == L
    requires Sub(t.tree, Sibling(xp)).Node? && Sub(t.tree, Sibling(xp)).id == bro
    modifies t
    ensures Rooted(t) && IsRB(t.tree)
    ensures InOrder(t.tree) == old(InOrder(t.tree)) && Ids(t.tree) == old(Ids(t.tree))
    ensures |t.nodes| == |old(t.nodes)| && StoreFrame(old(t.nodes), t.nodes, old(Ids(t.tree)))
  {
    ghost var t0 := t.tree;
    ghost var n0 := t.nodes;
    ghost var pp := Parent(xp);
    ghost var sib := Sibling(xp);
    ghost var d := Last(xp);
    FarRedIds(t0, xp, h);
    EraseFixFarRedPractice(t0, xp, h);
    Nav(t0, pp, t.nodes);
    Nav(t0, sib, t.nodes);
    var parentNode := t.nodes[node].parent;
    var far := if isLeft then t.nodes[bro].right else t.nodes[bro].left;
    Paint(t, bro, t.nodes[parentNode].color, sib);
    ghost var n1 := t.nodes;
    Paint(t, parentNode, Black, pp);
    ghost var n2 := t.nodes;
    Paint(t, far, Black, sib + [Flip(d)]);
    ghost var n3 := t.nodes;
    if isLeft {
      LeftRotate(t, parentNode, pp);
    } else {
      RightRotate(t, parentNode, pp);
    }
    StoreFrameTrans(n0, n1, n2, Ids(t0), Ids(t0));
    StoreFrameTrans(n0, n2, n3, Ids(t0), Ids(t0));
    StoreFrameTrans(n0, n3, t.nodes, Ids(t0), Ids(t0));
  }

  // ---------------------------------------------------------------------
  // Erase
  // ---------------------------------------------------------------------

  /** `rbtree_erase(origin)`: with at most one child `origin` is replaced
      by that child (the right one when the left is `nil`); with two, its
      successor is cut out of the right subtree and then moved into
      `origin`'s place, taking `origin`'s colour and children.  When the
      colour that left the tree is BLACK the fixup runs from the node that
      took the cut node's place (possibly `nil`, whose `parent` the
      transplant set).  The key at `origin`'s in-order index leaves the
      sorted key sequence, `origin` leaves the tree, and the tree is valid
      again; the result is 0. */
  method Erase(t: RbTree, origin: nat) returns (r: int)
    requires Rooted(t) && ValidRB(t.tree) && origin in Ids(t.tree)
    modifies t
    ensures r == 0 && Rooted(t) && ValidRB(t.tree) && |t.nodes| == |old(t.nodes)|
    ensures var s := old(InOrder(t.tree)); var i := old(InIndex(t.tree, PathOf(t.tree, origin)));
            && i < |s| && origin < |old(t.nodes)| && s[i] == old(t.nodes[origin].key) && InOrder(t.tree) == s[..i] + s[i + 1..]
    ensures Ids(t.tree) == old(Ids(t.tree)) - {origin}
    ensures StoreFrame(old(t.nodes), t.nodes, old(Ids(t.tree)))
  {
    ghost var t0 := t.tree;
    ghost var n0 := t.nodes;
    ghost var zp := PathOf(t0, origin);
    ghost var sp := ErasePos(t0, zp);
    ghost var h := BH(t0);
    EraseNodeMoveSpec(t0, zp);
    Nav(t0, zp, n0);
    NilIffLeaf(Sub(t0, zp), n0);
    var erasedColor := t.nodes[origin].color;
    var x: nat;
    if t.nodes[origin].left == 0 {
      x := t.nodes[origin].right;
      EraseCutOut(t, origin, x, zp);
    } else if t.nodes[origin].right == 0 {
      x := t.nodes[origin].left;
      EraseCutOut(t, origin, x, zp);
    } else {
      x, erasedColor := EraseMove(t, origin, zp);
    }
    ghost var n1 := t.nodes;
    if erasedColor == Black {
      EraseFixup(t, x, sp, h);
      StoreFrameTrans(n0, n1, t.nodes, Ids(t0), Ids(t0));
    }
    OrderedIffSorted(t.tree);
    return 0;
  }

  /** Steps of `rbtree_erase` for a node `z` at `zp` with at most one
      child: `rbtree_transplant(z, x)` with `x` the child that takes its
      place (possibly `nil`).  `x`'s `parent` names the node above the
      position, for `nil` too. */
  method EraseCutOut(t: RbTree, z: nat, x: nat, ghost zp: seq<Dir>)
    requires Rooted(t) && ValidPath(t.tree, zp) && Sub(t.tree, zp).Node? && Sub(t.tree, zp).id == z
    requires !TwoChildren(Sub(t.tree, zp)) && x == IdOf(Spliced(Sub(t.tree, zp)))
    modifies t
    ensures Rooted(t) && t.tree == Unlink(old(t.tree), zp)
    ensures ValidPath(t.tree, zp) && x == IdOf(Sub(t.tree, zp)) && x < |t.nodes|
    ensures zp != [] ==> t.nodes[x].parent == IdOf(Sub(t.tree, Parent(zp)))
    ensures |t.nodes| == |old(t.nodes)| && StoreFrame(old(t.nodes), t.nodes, old(Ids(t.tree)))
  {
    ghost var t0 := t.tree;
    ghost var n0 := t.nodes;
    ParentLink(t, zp);
    ReplaceAt(t0, zp, Spliced(Sub(t0, zp)));
    if zp == [] {
      TransplantRoot(t0, n0);
    } else {
      TransplantCut(t0, zp, n0);
      CutStore(t0, zp, n0);
      CutFrame(t0, zp, n0);
    }
    Transplant(t, z, x);
    t.tree := Unlink(t0, zp);
  }

  /** Steps of `rbtree_erase` for a node `z` (at `zp`) with two children:
      the successor `target` is found from `z`'s right child, its colour
      is the one that leaves, `rbtree_transplant(target, target->right)`
      cuts it out, and it moves into `z`'s place.  The node at the cut
      position, possibly `nil`, is returned with its `parent` set. */
  method EraseMove(t: RbTree, z: nat, ghost zp: seq<Dir>) returns (x: nat, erasedColor: Color)
    requires Rooted(t) && ValidPath(t.tree, zp) && Sub(t.tree, zp).Node? && Sub(t.tree, zp).id == z
    requires TwoChildren(Sub(t.tree, zp))
    modifies t
    ensures var sp := ErasePos(old(t.tree), zp);
            && Rooted(t) && t.tree == EraseByNodeMove(old(t.tree), zp)
            && erasedColor == ColorOf(old(Sub(t.tree, sp)))
            && ValidPath(t.tree, sp) && x == IdOf(Sub(t.tree, sp)) && x < |t.nodes|
            && t.nodes[x].parent == IdOf(Sub(t.tree, Parent(sp)))
    ensures |t.nodes| == |old(t.nodes)| && StoreFrame(old(t.nodes), t.nodes, old(Ids(t.tree)))
  {
    ghost var t0 := t.tree;
    ghost var n0 := t.nodes;
    ghost var sp := ErasePos(t0, zp);
    EraseMovePaths(t0, zp);
    MoveCut(t0, zp);
    MoveRelabel(t0, zp);
    Nav(t0, zp, n0);
    var target := Successor(t, t.nodes[z].right, zp + [R]);
    Nav(t0, sp, n0);
    erasedColor := t.nodes[target].color;
    x := t.nodes[target].right;
    ParentLink(t, zp);
    EraseCutOut(t, target, x, sp);
    ghost var t1 := t.tree;
    ghost var n1 := t.nodes;
    UnlinkIds(t0, sp);
    NodeIdIn(t0, sp);
    MoveInto(t, z, target, zp);
    StoreFrameTrans(n0, n1, t.nodes, Ids(t0), Ids(t1) + {target});
    MoveParent(t0, zp, t1, t.tree, n1, t.nodes, x);
  }

  /** The records `rbtree_erase` writes to move `y` into `z`'s place:
      `rbtree_transplant(z, y)`, then `y` takes `z`'s right child, left
      child and colour, each child taking `y` as its `parent` (`nil`
      included). */
  function MoveWrites(n: seq<NodeRecord>, z: nat, y: nat): seq<NodeRecord>
    requires z < |n| && y < |n| && z != y
    requires n[z].parent < |n| && n[z].parent != z && n[z].left < |n| && n[z].right < |n|
  {
    AdoptWrites(TransplantWrites(n, z, y), z, y)
  }

  /** The records after `y` adopts `z`'s children and colour. */
  function AdoptWrites(n: seq<NodeRecord>, z: nat, y: nat): seq<NodeRecord>
    requires z < |n| && y < |n| && n[z].left < |n| && n[z].right < |n|
  {
    var n2 := n[y := n[y].(right := n[z].right)];
    var n3 := n2[n2[y].right := n2[n2[y].right].(parent := y)];
    var n4 := n3[y := n3[y].(left := n3[z].left)];
    var n5 := n4[n4[y].left := n4[n4[y].left].(parent := y)];
    n5[y := n5[y].(color := n5[z].color)]
  }

  /** `MoveWrites` slot by slot, when `z`'s parent, children and `y` are
      told apart. */
  lemma MoveWritesAt(n: seq<NodeRecord>, z: nat, y: nat, d: Dir)
    requires z < |n| && y < |n| && z != y
    requires n[z].parent < |n| && n[z].parent != z && n[z].left < |n| && n[z].right < |n|
    requires var zl := n[z].left; var zr := n[z].right; var g := n[z].parent;
             && zl != z && zr != z && zl != y && zr != y && g != y
             && (g != 0 ==> g != zl && g != zr && (z == n[g].left <==> d == L))
             && (zl == zr ==> zl == 0)
    ensures Moved(n, MoveWrites(n, z, y), z, y, d)
  {
  }

  /** The records after moving `y` into `z`'s place, slot by slot: `y`
      takes `z`'s colour, parent and children (keeping its own key), `z`'s
      parent links to `y` on side `d`, `z`'s children name `y` as their
      parent, and nothing else changes. */
  ghost predicate Moved(n: seq<NodeRecord>, n': seq<NodeRecord>, z: nat, y: nat, d: Dir) {
    && z < |n| && y < |n| && |n'| == |n|
    && var zl := n[z].left; var zr := n[z].right; var g := n[z].parent;
    && zl < |n| && zr < |n| && g < |n|
    && n'[y] == NodeRecord(n[z].color, n[y].key, g, zl, zr)
    && (g != 0 ==> n'[g] == SetLink(n[g], d, y))
    && n'[zl] == n[zl].(parent := y) && n'[zr] == n[zr].(parent := y)
    && forall i | 0 <= i < |n| && i != y && i != zl && i != zr && (g == 0 || i != g) :: n'[i] == n[i]
  }

  /** The side of its parent on which the node at `p` hangs. */
  function SideOf(p: seq<Dir>): Dir {
    if p == [] then L else Last(p)
  }

  /** Moving the node `y` from outside the tree into the place of the node
      at `zp`: the store after the writes of `Moved` spells out the tree
      with that node relabelled to `y` (keeping `y`'s key); only the
      tree's slots, `y` and `nil` change, and `nil` only in its `parent`. */
  lemma LinkedMove(t: Tree, zp: seq<Dir>, y: nat, nodes: seq<NodeRecord>, n': seq<NodeRecord>)
    requires Linked(t, nodes) && Distinct(t) && ValidPath(t, zp) && Sub(t, zp).Node?
    requires 0 < y < |nodes| && y !in Ids(t)
    requires Sub(t, zp).id < |nodes| && nodes[Sub(t, zp).id].parent == (if zp == [] then 0 else IdOf(Sub(t, Parent(zp))))
    requires Moved(nodes, n', Sub(t, zp).id, y, SideOf(zp))
    ensures var z := Sub(t, zp); var u := z.(k := nodes[y].key, id := y); var t' := Replace(t, zp, u);
            && Linked(t', n') && Distinct(t') && Ids(t') == Ids(t) - {z.id} + {y}
            && IdOf(t') == (if zp == [] then y else IdOf(t))
            && n'[y].parent == nodes[z.id].parent
            && n'[0] == (if z.l.Leaf? || z.r.Leaf? then nodes[0].(parent := y) else nodes[0])
            && StoreFrame(nodes, n', Ids(t) + {y})
            && (zp != [] ==> IdOf(t) < |nodes| && n'[IdOf(t)].parent == nodes[IdOf(t)].parent)
  {
    var z := Sub(t, zp);
    var u := z.(k := nodes[y].key, id := y);
    MoveShape(t, zp, y, nodes);
    MoveChildren(t, zp, y, nodes, n');
    MoveStore(t, zp, y, nodes, n');
    RelabelIds(t, zp, y);
    if zp != [] {
      MoveHooked(t, zp, y, nodes, n');
      LinkedReplace(t, zp, u, nodes, n');
    }
  }

  /** Relabelling the node at `zp` with a slot `y` from outside the tree
      swaps that one slot in the tree's set of nodes. */
  lemma RelabelIds(t: Tree, zp: seq<Dir>, y: nat)
    requires Distinct(t) && ValidPath(t, zp) && Sub(t, zp).Node? && 0 < y && y !in Ids(t)
    ensures forall k :: var t' := Replace(t, zp, Sub(t, zp).(k := k, id := y));
              && Distinct(t') && Ids(t') == Ids(t) - {Sub(t, zp).id} + {y}
              && IdOf(t') == (if zp == [] then y else IdOf(t))
  {
    var z := Sub(t, zp);
    IdsReplace(t, zp, Leaf);
    assert Ids(z) == Ids(z.l) + {z.id} + Ids(z.r);
    forall k
      ensures var t' := Replace(t, zp, z.(k := k, id := y));
              && Distinct(t') && Ids(t') == Ids(t) - {z.id} + {y}
              && IdOf(t') == (if zp == [] then y else IdOf(t))
    {
      var u := z.(k := k, id := y);
      IdsReplace(t, zp, u);
      assert Ids(u) == Ids(z.l) + {y} + Ids(z.r);
      if zp != [] {
        BelowTop(t, zp);
      }
    }
  }

  /** What the records say about the node at `zp` that `MoveWrites` is
      about to replace by `y`: its links, and that its parent, its children
      and `y` are told apart. */
  lemma MoveShape(t: Tree, zp: seq<Dir>, y: nat, nodes: seq<NodeRecord>)
    requires Linked(t, nodes) && Distinct(t) && ValidPath(t, zp) && Sub(t, zp).Node?
    requires 0 < y < |nodes| && y !in Ids(t)
    requires Sub(t, zp).id < |nodes| && nodes[Sub(t, zp).id].parent == (if zp == [] then 0 else IdOf(Sub(t, Parent(zp))))
    ensures var z := Sub(t, zp); var g := nodes[z.id].parent;
            && z.id != y && g < |nodes| && g != z.id && (g == 0 <==> zp == [])
            && nodes[z.id].left == IdOf(z.l) && nodes[z.id].right == IdOf(z.r) && nodes[z.id].color == z.c
            && IdOf(z.l) < |nodes| && IdOf(z.r) < |nodes|
            && IdOf(z.l) != z.id && IdOf(z.r) != z.id && IdOf(z.l) != y && IdOf(z.r) != y && g != y
            && (g != 0 ==> g != IdOf(z.l) && g != IdOf(z.r) && (z.id == nodes[g].left <==> Last(zp) == L))
            && (IdOf(z.l) == IdOf(z.r) ==> IdOf(z.l) == 0)
            && Distinct(z) && Ids(z) == Ids(z.l) + {z.id} + Ids(z.r) && Ids(z) <= Ids(t)
            && (zp != [] ==> g in Ids(t) && g !in Ids(z) && g == IdOf(Sub(t, Parent(zp))))
            && Linked(z, nodes) && y !in Ids(z)
  {
    var z := Sub(t, zp);
    Nav(t, zp, nodes);
    IdsReplace(t, zp, Leaf);
    assert Ids(z) == Ids(z.l) + {z.id} + Ids(z.r);
    LinkedIds(z, nodes);
    if z.l.Node? || z.r.Node? {
      SidesDiffer(z);
    }
    if z.l.Node? {
      assert z.l.id in Ids(z);
    }
    if z.r.Node? {
      assert z.r.id in Ids(z);
    }
    if zp != [] {
      ParentOutside(t, zp);
      SubParent(t, zp);
      Nav(t, Parent(zp), nodes);
      SidesDifferAt(t, Parent(zp));
    }
  }

  /** After the move, the relabelled node `u` heads `z`'s children. */
  lemma MoveChildren(t: Tree, zp: seq<Dir>, y: nat, nodes: seq<NodeRecord>, n': seq<NodeRecord>)
    requires Linked(t, nodes) && Distinct(t) && ValidPath(t, zp) && Sub(t, zp).Node?
    requires 0 < y < |nodes| && y !in Ids(t)
    requires Sub(t, zp).id < |nodes| && nodes[Sub(t, zp).id].parent == (if zp == [] then 0 else IdOf(Sub(t, Parent(zp))))
    requires Moved(nodes, n', Sub(t, zp).id, y, SideOf(zp))
    ensures var z := Sub(t, zp); Linked(z.(k := nodes[y].key, id := y), n')
  {
    var z := Sub(t, zp);
    MoveShape(t, zp, y, nodes);
    LinkedIds(z, nodes);
    var g := nodes[z.id].parent;
    if z.l.Node? {
      assert z.l.id in Ids(z.l);
    }
    if z.r.Node? {
      assert z.r.id in Ids(z.r);
    }
    forall i | i in Ids(z.l) && i < |nodes|
      ensures SameLinks(nodes[i], n'[i]) && (i != IdOf(z.l) ==> n'[i].parent == nodes[i].parent)
    {
      assert i in Ids(z) && i != z.id && i != y && i != IdOf(z.r);
      if g != 0 {
        assert i != g;
      }
    }
    forall i | i in Ids(z.r) && i < |nodes|
      ensures SameLinks(nodes[i], n'[i]) && (i != IdOf(z.r) ==> n'[i].parent == nodes[i].parent)
    {
      assert i in Ids(z) && i != z.id && i != y && i != IdOf(z.l);
      if g != 0 {
        assert i != g;
      }
    }
    MoveTopLinked(z, y, nodes, n');
  }

  /** After the move, `z`'s parent points at `y` instead, and the records
      of the tree outside `z`'s subtree keep their links. */
  lemma MoveHooked(t: Tree, zp: seq<Dir>, y: nat, nodes: seq<NodeRecord>, n': seq<NodeRecord>)
    requires Linked(t, nodes) && Distinct(t) && ValidPath(t, zp) && Sub(t, zp).Node?
    requires 0 < y < |nodes| && y !in Ids(t)
    requires Sub(t, zp).id < |nodes| && nodes[Sub(t, zp).id].parent == (if zp == [] then 0 else IdOf(Sub(t, Parent(zp))))
    requires Moved(nodes, n', Sub(t, zp).id, y, SideOf(zp))
    requires zp != []
    ensures var z := Sub(t, zp); var u := z.(k := nodes[y].key, id := y);
            && Hooked(t, zp, u, nodes, n') && FramedOutside(t, zp, IdOf(Sub(t, Parent(zp))), nodes, n')
            && IdOf(t) < |nodes| && n'[IdOf(t)].parent == nodes[IdOf(t)].parent
  {
    var z := Sub(t, zp);
    MoveShape(t, zp, y, nodes);
    var g := nodes[z.id].parent;
    BelowTop(t, zp);
    Nav(t, [], nodes);
    LinkedIds(t, nodes);
    forall i | i in Ids(t) && i !in Ids(z) && i != g
      ensures i < |nodes| && n'[i] == nodes[i]
    {
    }
    assert t.id in Ids(t);
  }

  /** The move touches only the tree's records, `y` and `nil`'s `parent`,
      and no key. */
  lemma MoveStore(t: Tree, zp: seq<Dir>, y: nat, nodes: seq<NodeRecord>, n': seq<NodeRecord>)
    requires Linked(t, nodes) && Distinct(t) && ValidPath(t, zp) && Sub(t, zp).Node?
    requires 0 < y < |nodes| && y !in Ids(t)
    requires Sub(t, zp).id < |nodes| && nodes[Sub(t, zp).id].parent == (if zp == [] then 0 else IdOf(Sub(t, Parent(zp))))
    requires Moved(nodes, n', Sub(t, zp).id, y, SideOf(zp))
    ensures var z := Sub(t, zp);
            && n'[0] == (if z.l.Leaf? || z.r.Leaf? then nodes[0].(parent := y) else nodes[0])
            && StoreFrame(nodes, n', Ids(t) + {y})
  {
    var z := Sub(t, zp);
    MoveShape(t, zp, y, nodes);
    if z.l.Node? {
      assert z.l.id in Ids(z);
    }
    if z.r.Node? {
      assert z.r.id in Ids(z);
    }
  }

  /** The moved node `y` heads the old node's children in the new store. */
  lemma MoveTopLinked(z: Tree, y: nat, nodes: seq<NodeRecord>, n': seq<NodeRecord>)
    requires z.Node? && Linked(z, nodes) && Distinct(z) && y !in Ids(z) && 0 < y < |n'| && |nodes| == |n'|
    requires n'[y].color == z.c && n'[y].key == nodes[y].key && n'[y].left == IdOf(z.l) && n'[y].right == IdOf(z.r)
    requires forall i | i in Ids(z.l) && i < |nodes| ::
               SameLinks(nodes[i], n'[i]) && (i != IdOf(z.l) ==> n'[i].parent == nodes[i].parent)
    requires forall i | i in Ids(z.r) && i < |nodes| ::
               SameLinks(nodes[i], n'[i]) && (i != IdOf(z.r) ==> n'[i].parent == nodes[i].parent)
    requires z.l.Node? ==> n'[z.l.id].parent == y
    requires z.r.Node? ==> n'[z.r.id].parent == y
    ensures Linked(z.(k := nodes[y].key, id := y), n')
  {
    LinkedFrame(z.l, nodes, n');
    LinkedFrame(z.r, nodes, n');
  }

  /** Steps of `rbtree_erase` after the successor `y` is cut out:
      `rbtree_transplant(z, y)`, then `y` takes `z`'s children and colour.
      The tree has `y`, with its own key, in `z`'s place; `z` is out of
      it.  `nil`'s `parent` becomes `y` when one of `z`'s children is
      `nil`. */
  method MoveInto(t: RbTree, z: nat, y: nat, ghost zp: seq<Dir>)
    requires Rooted(t) && ValidPath(t.tree, zp) && Sub(t.tree, zp).Node? && Sub(t.tree, zp).id == z
    requires 0 < y < |t.nodes| && y !in Ids(t.tree)
    modifies t
    ensures Rooted(t) && t.tree == Replace(old(t.tree), zp, old(Sub(t.tree, zp)).(k := old(t.nodes[y].key), id := y))
    ensures Ids(t.tree) == old(Ids(t.tree)) - {z} + {y}
    ensures t.nodes[0] == (if old(Sub(t.tree, zp)).l.Leaf? || old(Sub(t.tree, zp)).r.Leaf?
                           then old(t.nodes[0]).(parent := y) else old(t.nodes[0]))
    ensures |t.nodes| == |old(t.nodes)| && StoreFrame(old(t.nodes), t.nodes, old(Ids(t.tree)) + {y})
  {
    ghost var t1 := t.tree;
    ghost var n1 := t.nodes;
    ghost var u := Sub(t1, zp).(k := n1[y].key, id := y);
    ParentLink(t, zp);
    MoveShape(t1, zp, y, n1);
    Transplant(t, z, y);
    AdoptChildren(t, z, y);
    MoveWritesAt(n1, z, y, SideOf(zp));
    LinkedMove(t1, zp, y, n1, t.nodes);
    t.tree := Replace(t1, zp, u);
  }

  /** The writes after `rbtree_transplant(t, origin, target)`: `y` takes
      `z`'s right child, then its left child, each child naming `y` as its
      `parent` (`nil` included), and finally `z`'s colour. */
  method AdoptChildren(t: RbTree, z: nat, y: nat)
    requires z < |t.nodes| && y < |t.nodes| && t.nodes[z].left < |t.nodes| && t.nodes[z].right < |t.nodes|
    modifies t
    ensures t.nodes == AdoptWrites(old(t.nodes), z, y)
    ensures t.root == old(t.root) && t.tree == old(t.tree)
  {
    var nodes := t.nodes;
    nodes := nodes[y := nodes[y].(right := nodes[z].right)];
    nodes := nodes[nodes[y].right := nodes[nodes[y].right].(parent := y)];
    nodes := nodes[y := nodes[y].(left := nodes[z].left)];
    nodes := nodes[nodes[y].left := nodes[nodes[y].left].(parent := y)];
    nodes := nodes[y := nodes[y].(color := nodes[z].color)];
    t.nodes := nodes;
  }

  /** Relabelling the node at `zp` keeps every subtree strictly below it. */
  lemma RelabelKeepsBelow(t: Tree, zp: seq<Dir>, u: Tree, r: seq<Dir>)
    requires ValidPath(t, zp) && Sub(t, zp).Node? && u.Node? && u.l == Sub(t, zp).l && u.r == Sub(t, zp).r
    requires r != [] && ValidPath(t, zp + r)
    ensures ValidPath(Replace(t, zp, u), zp + r) && Sub(Replace(t, zp, u), zp + r) == Sub(t, zp + r)
  {
    var t' := Replace(t, zp, u);
    ReplaceAt(t, zp, u);
    SubConcat(t, zp, r);
    SubConcat(t', zp, r);
    assert Child(u, r[0]) == Child(Sub(t, zp), r[0]);
  }

  /** After the move, the node at the successor's old position (possibly
      `nil`) has as `parent` the node now above that position: the moved
      successor when it was `z`'s right child, else the successor's old
      parent. */
  lemma MoveParent(t0: Tree, zp: seq<Dir>, t1: Tree, t3: Tree, n1: seq<NodeRecord>, n3: seq<NodeRecord>, x: nat)
    requires TwoChildren(Sub(t0, zp)) && t1 == Unlink(t0, ErasePos(t0, zp))
    requires ValidPath(t1, ErasePos(t0, zp)) && x == IdOf(Sub(t1, ErasePos(t0, zp))) && x < |n1|
    requires n1[x].parent == IdOf(Sub(t1, Parent(ErasePos(t0, zp))))
    requires ValidPath(t1, zp) && Sub(t1, zp).Node?
    requires t3 == Replace(t1, zp, Sub(t1, zp).(k := Sub(Sub(t0, zp).r, MinPath(Sub(t0, zp).r)).k,
                                                id := Sub(Sub(t0, zp).r, MinPath(Sub(t0, zp).r)).id))
    requires Linked(t3, n3) && Distinct(t3) && |n3| == |n1|
    requires n3[0] == (if Sub(t1, zp).l.Leaf? || Sub(t1, zp).r.Leaf?
                       then n1[0].(parent := Sub(Sub(t0, zp).r, MinPath(Sub(t0, zp).r)).id) else n1[0])
    ensures var sp := ErasePos(t0, zp);
            && ValidPath(t3, sp) && x == IdOf(Sub(t3, sp)) && x < |n3| && n3[x].parent == IdOf(Sub(t3, Parent(sp)))
  {
    var sp := ErasePos(t0, zp);
    MoveAbove(t0, zp, t1);
    if Sub(t3, sp).Node? {
      Nav(t3, sp, n3);
    }
  }

  /** Where the successor's old position sits after the move: the subtree
      there is the one left by the cut, and the node above it is the moved
      successor when the successor was `z`'s right child, else the node
      that was above it. */
  lemma MoveAbove(t0: Tree, zp: seq<Dir>, t1: Tree)
    requires TwoChildren(Sub(t0, zp)) && t1 == Unlink(t0, ErasePos(t0, zp))
    requires ValidPath(t1, ErasePos(t0, zp))
    ensures ValidPath(t1, zp) && Sub(t1, zp).Node? && ErasePos(t0, zp) != []
    ensures var z := Sub(t0, zp); var mp := MinPath(z.r); var y := Sub(z.r, mp); var sp := ErasePos(t0, zp);
            var t3 := Replace(t1, zp, Sub(t1, zp).(k := y.k, id := y.id));
            && ValidPath(t3, sp) && Sub(t3, sp) == Sub(t1, sp)
            && Sub(t1, zp).l.Node?
            && (mp == [] ==> IdOf(Sub(t3, Parent(sp))) == y.id && Sub(t1, zp).r == Sub(t1, sp))
            && (mp != [] ==> IdOf(Sub(t3, Parent(sp))) == IdOf(Sub(t1, Parent(sp))) && Sub(t1, zp).r.Node?)
  {
    MoveCutShape(t0, zp, t1);
    MoveAboveKeep(t0, zp, t1);
  }

  /** The erased node's place after the cut: its left child is untouched,
      and its right subtree is the cut one, whose top is the successor's
      old position exactly when the successor was the right child. */
  lemma MoveCutShape(t0: Tree, zp: seq<Dir>, t1: Tree)
    requires TwoChildren(Sub(t0, zp)) && t1 == Unlink(t0, ErasePos(t0, zp))
    ensures var z := Sub(t0, zp); var mp := MinPath(z.r); var sp := ErasePos(t0, zp);
            && ValidPath(t1, zp) && Sub(t1, zp) == z.(r := Unlink(z.r, mp)) && z.l.Node?
            && (mp != [] ==> Unlink(z.r, mp).Node?) && sp == zp + ([R] + mp)
            && (mp == [] ==> sp == zp + [R] && ValidPath(t1, sp) && Sub(t1, zp).r == Sub(t1, sp))
  {
    var z := Sub(t0, zp);
    var mp := MinPath(z.r);
    EraseMovePaths(t0, zp);
    MoveCut(t0, zp);
    if mp == [] {
      assert ErasePos(t0, zp) == zp + [R];
      SubAppend(t1, zp, R);
    }
  }

  /** Relabelling the erased node's place to the successor keeps the
      subtree at the successor's old position and the node above it. */
  lemma MoveAboveKeep(t0: Tree, zp: seq<Dir>, t1: Tree)
    requires TwoChildren(Sub(t0, zp)) && t1 == Unlink(t0, ErasePos(t0, zp))
    requires ValidPath(t1, ErasePos(t0, zp))
    ensures ValidPath(t1, zp) && Sub(t1, zp).Node?
    ensures var z := Sub(t0, zp); var mp := MinPath(z.r); var y := Sub(z.r, mp); var sp := ErasePos(t0, zp);
            var t3 := Replace(t1, zp, Sub(t1, zp).(k := y.k, id := y.id));
            && sp != [] && ValidPath(t3, sp) && Sub(t3, sp) == Sub(t1, sp)
            && IdOf(Sub(t3, Parent(sp))) == (if mp == [] then y.id else IdOf(Sub(t1, Parent(sp))))
  {
    var z := Sub(t0, zp);
    var mp := MinPath(z.r);
    var y := Sub(z.r, mp);
    MoveCutShape(t0, zp, t1);
    var u := Sub(t1, zp).(k := y.k, id := y.id);
    RelabelAbove(t1, zp, u, [R] + mp);
  }

  /** Relabelling the node at `zp` keeps the subtree at `zp + r` and the
      node above it, which is the relabelled node itself when `r` is one
      step long. */
  lemma RelabelAbove(t: Tree, zp: seq<Dir>, u: Tree, r: seq<Dir>)
    requires ValidPath(t, zp) && Sub(t, zp).Node? && u.Node? && u.l == Sub(t, zp).l && u.r == Sub(t, zp).r
    requires r != [] && ValidPath(t, zp + r)
    ensures var t' := Replace(t, zp, u);
            && ValidPath(t', zp + r) && Sub(t', zp + r) == Sub(t, zp + r)
            && IdOf(Sub(t', Parent(zp + r))) == (if |r| == 1 then u.id else IdOf(Sub(t, Parent(zp + r))))
  {
    RelabelKeepsBelow(t, zp, u, r);
    ParentConcat(zp, r);
    if |r| == 1 {
      assert Parent(r) == [] && zp + [] == zp;
      ReplaceAt(t, zp, u);
    } else {
      SubParent(t, zp + r);
      RelabelKeepsBelow(t, zp, u, Parent(r));
    }
  }

  // ---------------------------------------------------------------------
  // Queries
  // ---------------------------------------------------------------------

  /** `rbtree_find`: the descent from the root by key comparison finds a
      node holding `key` exactly when the tree holds `key`; otherwise the
      result is `NULL` (`None`). */
  method Find(t: RbTree, key: Key) returns (r: Option<nat>)
    requires Rooted(t) && ValidRB(t.tree)
    ensures r.Some? <==> key in InOrder(t.tree)
    ensures r.Some? ==> 0 < r.value < |t.nodes| && r.value in Ids(t.tree) && t.nodes[r.value].key == key
  {
    var now := t.root;
    ghost var s := t.tree;
    while now != 0
      invariant Linked(s, t.nodes) && IdOf(s) == now && Ordered(s) && Ids(s) <= Ids(t.tree)
      invariant key in InOrder(t.tree) <==> key in InOrder(s)
      decreases s
    {
      SearchStep(s, key);
      if key == t.nodes[now].key {
        assert InOrder(s) == InOrder(s.l) + [s.k] + InOrder(s.r);
        return Some(now);
      } else if key < t.nodes[now].key {
        now := t.nodes[now].left;
        s := s.l;
      } else {
        now := t.nodes[now].right;
        s := s.r;
      }
    }
    return None;
  }

  /** `rbtree_successor(pivot)`: the leftmost node of the subtree at `p`,
      which holds that subtree's first in-order key, in a search tree its
      smallest. */
  method Successor(t: RbTree, pivot: nat, ghost p: seq<Dir>) returns (r: nat)
    requires Rooted(t) && ValidPath(t.tree, p) && Sub(t.tree, p).Node? && Sub(t.tree, p).id == pivot
    ensures var s := Sub(t.tree, p);
            && ValidPath(t.tree, p + MinPath(s)) && Sub(t.tree, p + MinPath(s)) == Sub(s, MinPath(s))
            && r == Sub(s, MinPath(s)).id && r in Ids(t.tree) && 0 < r < |t.nodes|
            && t.nodes[r].key == InOrder(s)[0]
            && (Ordered(t.tree) ==> forall x | x in InOrder(s) :: t.nodes[r].key <= x)
  {
    ghost var s := Sub(t.tree, p);
    var now := pivot;
    ghost var rp: seq<Dir> := [];
    SubConcat(t.tree, p, rp);
    Nav(t.tree, p + rp, t.nodes);
    while t.nodes[now].left != 0
      invariant ValidPath(s, rp) && Sub(s, rp).Node? && Sub(s, rp).id == now
      invariant ValidPath(t.tree, p + rp) && Sub(t.tree, p + rp) == Sub(s, rp)
      invariant MinPath(s) == rp + MinPath(Sub(s, rp))
      invariant 0 < now < |t.nodes| && t.nodes[now].left == IdOf(Sub(s, rp).l)
      decreases Size(Sub(s, rp))
    {
      Nav(t.tree, p + rp, t.nodes);
      NilIffLeaf(Sub(s, rp), t.nodes);
      MinPathStep(s, rp);
      now := t.nodes[now].left;
      rp := rp + [L];
      SubConcat(t.tree, p, rp);
      Nav(t.tree, p + rp, t.nodes);
    }
    Nav(t.tree, p + rp, t.nodes);
    NilIffLeaf(Sub(s, rp), t.nodes);
    MinPathStep(s, rp);
    SubConcat(s, rp, []);
    r := now;
    MinPathFirst(s);
    if Ordered(t.tree) {
      OrderedSub(t.tree, p);
    }
  }

  /** `rbtree_min` on a non-empty tree: the leftmost node, holding the
      first in-order key, no larger than any key of the tree. */
  method Min(t: RbTree) returns (r: nat)
    requires Rooted(t) && ValidRB(t.tree) && t.tree.Node?
    ensures r == Sub(t.tree, MinPath(t.tree)).id && r in Ids(t.tree) && 0 < r < |t.nodes|
    ensures t.nodes[r].key == InOrder(t.tree)[0]
    ensures forall x | x in InOrder(t.tree) :: t.nodes[r].key <= x
  {
    ghost var tr := t.tree;
    var now := t.root;
    ghost var cp: seq<Dir> := [];
    Nav(tr, cp, t.nodes);
    while t.nodes[now].left != 0
      invariant ValidPath(tr, cp) && Sub(tr, cp).Node? && Sub(tr, cp).id == now
      invariant MinPath(tr) == cp + MinPath(Sub(tr, cp))
      invariant 0 < now < |t.nodes| && t.nodes[now].left == IdOf(Sub(tr, cp).l)
      decreases Size(Sub(tr, cp))
    {
      Nav(tr, cp, t.nodes);
      NilIffLeaf(Sub(tr, cp), t.nodes);
      MinPathStep(tr, cp);
      now := t.nodes[now].left;
      cp := cp + [L];
      Nav(tr, cp, t.nodes);
    }
    Nav(tr, cp, t.nodes);
    NilIffLeaf(Sub(tr, cp), t.nodes);
    MinPathStep(tr, cp);
    r := now;
    MinPathFirst(tr);
  }

  /** `rbtree_max` on a non-empty tree: the rightmost node, holding the
      last in-order key, no smaller than any key of the tree. */
  method Max(t: RbTree) returns (r: nat)
    requires Rooted(t) && ValidRB(t.tree) && t.tree.Node?
    ensures r == Sub(t.tree, MaxPath(t.tree)).id && r in Ids(t.tree) && 0 < r < |t.nodes|
    ensures t.nodes[r].key == InOrder(t.tree)[|InOrder(t.tree)| - 1]
    ensures forall x | x in InOrder(t.tree) :: x <= t.nodes[r].key
  {
    ghost var tr := t.tree;
    var now := t.root;
    ghost var cp: seq<Dir> := [];
    Nav(tr, cp, t.nodes);
    while t.nodes[now].right != 0
      invariant ValidPath(tr, cp) && Sub(tr, cp).Node? && Sub(tr, cp).id == now
      invariant MaxPath(tr) == cp + MaxPath(Sub(tr, cp))
      invariant 0 < now < |t.nodes| && t.nodes[now].right == IdOf(Sub(tr, cp).r)
      decreases Size(Sub(tr, cp))
    {
      Nav(tr, cp, t.nodes);
      NilIffLeaf(Sub(tr, cp), t.nodes);
      MaxPathStep(tr, cp);
      now := t.nodes[now].right;
      cp := cp + [R];
      Nav(tr, cp, t.nodes);
    }
    Nav(tr, cp, t.nodes);
    NilIffLeaf(Sub(tr, cp), t.nodes);
    MaxPathStep(tr, cp);
    r := now;
    MaxPathLast(tr);
  }

  // ---------------------------------------------------------------------
  // To array
  // ---------------------------------------------------------------------

  /** `rbtree_to_array`: -1 on an empty tree, which writes nothing;
      otherwise 0, with the keys in ascending order at the front of `arr`
      and the rest of `arr` untouched.  The capacity `n` is not consulted;
      the caller must provide room for every key. */
  method ToArray(t: RbTree, arr: array<Key>, n: nat) returns (r: int)
    requires Rooted(t) && ValidRB(t.tree) && |InOrder(t.tree)| <= arr.Length
    modifies arr
    ensures r == (if t.tree.Leaf? then -1 else 0)
    ensures arr[..] == Overwrite(old(arr[..]), 0, InOrder(t.tree))
    ensures Sorted(arr[..|InOrder(t.tree)|])
  {
    OrderedIffSorted(t.tree);
    if t.root == 0 {
      OverwriteNone(arr[..], 0);
      return -1;
    }
    var idx := 0;
    idx := InOrderWalk(t, t.root, arr, idx, t.tree);
    return 0;
  }

  /** `rbtree_in_order`: the keys of the subtree `s` whose top is `now`
      written in order from `arr[idx]` on, nothing else in `arr` touched;
      the index past the last one (the new `*idx`) is returned. */
  method InOrderWalk(t: RbTree, now: nat, arr: array<Key>, idx: nat, ghost s: Tree) returns (idx': nat)
    requires Linked(s, t.nodes) && s.Node? && s.id == now
    requires idx + |InOrder(s)| <= arr.Length
    modifies arr
    ensures idx' == idx + |InOrder(s)|
    ensures arr[..] == Overwrite(old(arr[..]), idx, InOrder(s))
    decreases s
  {
    ghost var a0 := arr[..];
    NilIffLeaf(s, t.nodes);
    idx' := idx;
    if t.nodes[now].left != 0 {
      idx' := InOrderWalk(t, t.nodes[now].left, arr, idx', s.l);
    } else {
      OverwriteNone(a0, idx);
    }
    ghost var a1 := arr[..];
    ghost var m := idx';
    arr[idx'] := t.nodes[now].key;
    idx' := idx' + 1;
    ghost var a2 := arr[..];
    assert a2 == a1[m := s.k];
    if t.nodes[now].right != 0 {
      idx' := InOrderWalk(t, t.nodes[now].right, arr, idx', s.r);
    } else {
      OverwriteNone(a2, idx');
    }
    OverwriteSteps(a0, a1, a2, arr[..], idx, InOrder(s.l), s.k, InOrder(s.r));
  }
}
