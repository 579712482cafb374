// The data model of rbtree.h: every `node_t` is a record in one node store,
// a pointer is the slot of the record it points to, and slot 0 is the single
// sentinel `nil` that every leaf link shares.  The ghost `tree` of an
// `RbTree` is the value the records spell out; `Linked` says they agree.

module RbNodes {
  import opened RbSpec
  import opened RbPaths
  import opened RbInvariants
  import opened RbFixup
  import opened RbOps

  /** A pointer result that may be `NULL`. */
  datatype Option<T> = None | Some(value: T)

  /** `node_t`: colour, key and the three links, each link a slot. */
  datatype NodeRecord = NodeRecord(color: Color, key: Key, parent: nat, left: nat, right: nat)

  /** The child link on side `d`. */
  function Link(r: NodeRecord, d: Dir): nat {
    if d == L then r.left else r.right
  }

  /** The record with its child link on side `d` set to `v`. */
  function SetLink(r: NodeRecord, d: Dir, v: nat): (r': NodeRecord)
    ensures Link(r', d) == v && Link(r', Flip(d)) == Link(r, Flip(d))
    ensures r'.color == r.color && r'.key == r.key && r'.parent == r.parent
  {
    if d == L then r.(left := v) else r.(right := v)
  }

  predicate SameLinks(a: NodeRecord, b: NodeRecord) {
    a.color == b.color && a.key == b.key && a.left == b.left && a.right == b.right
  }

  /** The records of the nodes of `t` hold their colours, keys and child
      links, and every child's `parent` is the node above it.  The `parent`
      of the top node is left free: `src` never resets it after the root
      changes. */
  predicate Linked(t: Tree, nodes: seq<NodeRecord>) {
    match t
    case Leaf => true
    case Node(c, l, k, r, id) =>
      && Linked(l, nodes) && Linked(r, nodes)
      && 0 < id < |nodes|
      && nodes[id].color == c && nodes[id].key == k
      && nodes[id].left == IdOf(l) && nodes[id].right == IdOf(r)
      && (l.Node? ==> l.id < |nodes| && nodes[l.id].parent == id)
      && (r.Node? ==> r.id < |nodes| && nodes[r.id].parent == id)
  }

  /** `rbtree`: the store of all records ever allocated, the `root` slot,
      and the tree they form.  `nil` is slot 0. */
  class RbTree {
    var nodes: seq<NodeRecord>
    var root: nat
    ghost var tree: Tree

    /** The pointer structure is a tree: the root slot is the tree's top,
        the records agree with the tree, no node occurs twice, and `nil`
        is BLACK. */
    ghost predicate Wellformed()
      reads this
    {
      && |nodes| > 0 && nodes[0].color == Black
      && Linked(tree, nodes) && Distinct(tree) && root == IdOf(tree)
    }

    /** A well-formed red-black search tree. */
    ghost predicate Valid()
      reads this
    {
      Wellformed() && ValidRB(tree)
    }

    /** `new_rbtree`: an empty tree whose root is the BLACK sentinel. */
    constructor ()
      ensures Valid() && tree == Leaf && InOrder(tree) == []
      ensures |nodes| == 1 && nodes[0].color == Black && root == 0
    {
      nodes := [NodeRecord(Black, 0, 0, 0, 0)];
      root := 0;
      tree := Leaf;
    }
  }

  // ---------------------------------------------------------------------
  // Reading the store

  lemma {:induction false} LinkedIds(t: Tree, nodes: seq<NodeRecord>)
    requires Linked(t, nodes)
    ensures forall i | i in Ids(t) :: 0 < i < |nodes|
  {
    match t
    case Leaf =>
    case Node(_, l, _, r, _) =>
      LinkedIds(l, nodes);
      LinkedIds(r, nodes);
  }

  lemma NodeIdIn(t: Tree, p: seq<Dir>)
    requires ValidPath(t, p) && Distinct(t) && Sub(t, p).Node?
    ensures Sub(t, p).id in Ids(t)
  {
    IdsReplace(t, p, Leaf);
    assert Sub(t, p).id in Ids(Sub(t, p));
  }

  /** A node strictly below the top of a distinct tree lies in the child
      subtree the path starts into, and so is not the top. */
  lemma BelowTop(t: Tree, p: seq<Dir>)
    requires ValidPath(t, p) && Distinct(t) && p != []
    ensures t.Node? && Ids(Sub(t, p)) <= Ids(Child(t, p[0]))
    ensures t.id !in Ids(Sub(t, p))
    ensures Sub(t, p) == Sub(Child(t, p[0]), p[1..])
  {
    IdsReplace(Child(t, p[0]), p[1..], Leaf);
  }

  /** Everything a record tells about the node at `p`: its fields, its
      parent link, and whether it is the root. */
  lemma {:induction false} Nav(t: Tree, p: seq<Dir>, nodes: seq<NodeRecord>)
    requires Linked(t, nodes) && Distinct(t) && ValidPath(t, p)
    ensures Linked(Sub(t, p), nodes)
    ensures Sub(t, p).Node? ==>
              var n := Sub(t, p);
              && 0 < n.id < |nodes| && n.id in Ids(t)
              && nodes[n.id].color == n.c && nodes[n.id].key == n.k
              && nodes[n.id].left == IdOf(n.l) && nodes[n.id].right == IdOf(n.r)
              && (p != [] ==> nodes[n.id].parent == IdOf(Sub(t, Parent(p))))
              && (n.id == IdOf(t) <==> p == [])
    decreases p
  {
    if p != [] {
      var c := Child(t, p[0]);
      Nav(c, p[1..], nodes);
      BelowTop(t, p);
      if Sub(t, p).Node? {
        NodeIdIn(t, p);
        var q := p[1..];
        if q == [] {
          assert Parent(p) == [];
          assert Sub(t, p) == c;
        } else {
          assert Parent(p) == [p[0]] + Parent(q);
          assert ([p[0]] + Parent(q))[1..] == Parent(q);
          assert Sub(t, Parent(p)) == Sub(c, Parent(q));
        }
      }
    }
  }

  /** A child link is `nil` exactly when the child is the sentinel. */
  lemma NilIffLeaf(t: Tree, nodes: seq<NodeRecord>)
    requires Linked(t, nodes) && t.Node?
    ensures IdOf(t.l) == 0 <==> t.l.Leaf?
    ensures IdOf(t.r) == 0 <==> t.r.Leaf?
  {
  }

  /** The two children of a node are told apart by their slots unless both
      are the sentinel. */
  lemma SidesDiffer(n: Tree)
    requires n.Node? && Distinct(n) && (n.l.Node? || n.r.Node?)
    ensures IdOf(n.l) != IdOf(n.r)
  {
    if n.l.Node? && n.r.Node? {
      assert n.l.id in Ids(n.l) && n.r.id in Ids(n.r);
    }
  }

  /** The same, for the node at `p` of a tree with distinct nodes. */
  lemma SidesDifferAt(t: Tree, p: seq<Dir>)
    requires Distinct(t) && ValidPath(t, p) && Sub(t, p).Node?
    requires Sub(t, p).l.Node? || Sub(t, p).r.Node?
    ensures IdOf(Sub(t, p).l) != IdOf(Sub(t, p).r)
  {
    IdsReplace(t, p, Leaf);
    SidesDiffer(Sub(t, p));
  }

  /** The slot of the node at `p`, found by descending from the top. */
  function PathOf(t: Tree, id: nat): (p: seq<Dir>)
    requires id in Ids(t)
    ensures ValidPath(t, p) && Sub(t, p).Node? && Sub(t, p).id == id
  {
    if t.id == id then []
    else
      var d := if id in Ids(t.l) then L else R;
      var q := PathOf(Child(t, d), id);
      assert ([d] + q)[0] == d && ([d] + q)[1..] == q;
      [d] + q
  }

  // ---------------------------------------------------------------------
  // Rewriting the store

  /** Records that keep their links keep a subtree linked; only its top may
      change its `parent`. */
  lemma {:induction false} LinkedFrame(t: Tree, nodes: seq<NodeRecord>, nodes': seq<NodeRecord>)
    requires Linked(t, nodes) && Distinct(t) && |nodes| <= |nodes'|
    requires forall i | i in Ids(t) && i < |nodes| ::
               SameLinks(nodes[i], nodes'[i]) && (i != IdOf(t) ==> nodes'[i].parent == nodes[i].parent)
    ensures Linked(t, nodes')
  {
    match t
    case Leaf =>
    case Node(_, l, _, r, id) =>
      LinkedIds(t, nodes);
      LinkedFrame(l, nodes, nodes');
      LinkedFrame(r, nodes, nodes');
      if l.Node? {
        assert l.id in Ids(t) && l.id != id;
      }
      if r.Node? {
        assert r.id in Ids(t) && r.id != id;
      }
  }

  /** The parent of the replaced subtree points at the new one, and the new
      one points back. */
  predicate Hooked(t: Tree, q: seq<Dir>, u: Tree, nodes: seq<NodeRecord>, nodes': seq<NodeRecord>)
    requires q != []
  {
    var g := IdOf(Sub(t, Parent(q)));
    var d := Last(q);
    && g < |nodes| && g < |nodes'|
    && nodes'[g].color == nodes[g].color && nodes'[g].key == nodes[g].key
    && Link(nodes'[g], d) == IdOf(u) && Link(nodes'[g], Flip(d)) == Link(nodes[g], Flip(d))
    && (g != IdOf(t) ==> nodes'[g].parent == nodes[g].parent)
    && (u.Node? ==> u.id < |nodes'| && nodes'[u.id].parent == g)
  }

  /** Outside the replaced subtree and its parent the records keep their
      links, and all but the top keep their `parent`. */
  predicate FramedOutside(t: Tree, q: seq<Dir>, g: nat, nodes: seq<NodeRecord>, nodes': seq<NodeRecord>) {
    forall i | i in Ids(t) && i !in Ids(Sub(t, q)) && i != g ::
      && i < |nodes| && i < |nodes'| && SameLinks(nodes[i], nodes'[i])
      && (i != IdOf(t) ==> nodes'[i].parent == nodes[i].parent)
  }

  /** A node whose record names its two linked children. */
  lemma LinkedSetChild(t: Tree, d: Dir, u: Tree, nodes: seq<NodeRecord>, nodes': seq<NodeRecord>)
    requires t.Node? && 0 < t.id < |nodes'|
    requires Linked(u, nodes') && Linked(Child(t, Flip(d)), nodes')
    requires nodes'[t.id].color == t.c && nodes'[t.id].key == t.k
    requires Link(nodes'[t.id], d) == IdOf(u) && Link(nodes'[t.id], Flip(d)) == IdOf(Child(t, Flip(d)))
    requires u.Node? ==> u.id < |nodes'| && nodes'[u.id].parent == t.id
    requires Child(t, Flip(d)).Node? ==> Child(t, Flip(d)).id < |nodes'| && nodes'[Child(t, Flip(d)).id].parent == t.id
    ensures Linked(SetChild(t, d, u), nodes')
  {
  }

  /** The conditions of `LinkedReplace` seen from the child the path
      enters, when the path is longer than one step. */
  lemma HookedDown(t: Tree, q: seq<Dir>, u: Tree, nodes: seq<NodeRecord>, nodes': seq<NodeRecord>)
    requires Distinct(t) && ValidPath(t, q) && |q| > 1
    requires Hooked(t, q, u, nodes, nodes')
    requires FramedOutside(t, q, IdOf(Sub(t, Parent(q))), nodes, nodes')
    ensures var c := Child(t, q[0]); var q' := q[1..];
            && q' != [] && ValidPath(c, q') && Distinct(c)
            && Sub(c, Parent(q')) == Sub(t, Parent(q)) && Sub(c, q') == Sub(t, q)
            && Sub(c, Parent(q')).Node? && Sub(c, Parent(q')).id in Ids(c)
            && Hooked(c, q', u, nodes, nodes')
            && FramedOutside(c, q', IdOf(Sub(c, Parent(q'))), nodes, nodes')
  {
    var d := q[0];
    var c := Child(t, d);
    var q' := q[1..];
    BelowTop(t, q);
    assert Parent(q) == [d] + Parent(q');
    assert ([d] + Parent(q'))[1..] == Parent(q');
    assert Last(q') == Last(q);
    SubParent(c, q');
    NodeIdIn(c, Parent(q'));
    assert Ids(t) == Ids(t.l) + {t.id} + Ids(t.r);
  }

  /** The parent of the node at `q` is the top or lies in the child
      subtree `q` enters. */
  lemma ParentSlot(t: Tree, q: seq<Dir>)
    requires Distinct(t) && ValidPath(t, q) && q != []
    ensures t.Node? && Sub(t, Parent(q)).Node?
    ensures var g := Sub(t, Parent(q)).id;
            g == t.id || g in Ids(Child(t, q[0]))
  {
    var d := q[0];
    var c := Child(t, d);
    var q' := q[1..];
    SubParent(t, q);
    if q' == [] {
      assert Parent(q) == [];
    } else {
      assert Parent(q) == [d] + Parent(q');
      assert ([d] + Parent(q'))[1..] == Parent(q');
      SubParent(c, q');
      NodeIdIn(c, Parent(q'));
    }
  }

  /** The side of the tree a replacement does not enter keeps its records. */
  lemma OtherSide(t: Tree, q: seq<Dir>, nodes: seq<NodeRecord>, nodes': seq<NodeRecord>)
    requires Linked(t, nodes) && Distinct(t) && ValidPath(t, q) && q != [] && |nodes| <= |nodes'|
    requires FramedOutside(t, q, IdOf(Sub(t, Parent(q))), nodes, nodes')
    ensures var o := Child(t, Flip(q[0]));
            && Linked(o, nodes')
            && (o.Node? ==> o.id < |nodes'| && nodes'[o.id].parent == t.id)
  {
    var d := q[0];
    var c := Child(t, d);
    var o := Child(t, Flip(d));
    var g := IdOf(Sub(t, Parent(q)));
    BelowTop(t, q);
    ParentSlot(t, q);
    assert Ids(t) == Ids(t.l) + {t.id} + Ids(t.r);
    assert Ids(o) !! Ids(c) && t.id !in Ids(o);
    forall i | i in Ids(o) && i < |nodes|
      ensures SameLinks(nodes[i], nodes'[i]) && (i != IdOf(o) ==> nodes'[i].parent == nodes[i].parent)
    {
      assert i in Ids(t) && i !in Ids(Sub(t, q)) && i != g && i != IdOf(t);
    }
    LinkedFrame(o, nodes, nodes');
    if o.Node? {
      assert o.id in Ids(o);
      assert o.id in Ids(t) && o.id !in Ids(Sub(t, q)) && o.id != g && o.id != IdOf(t);
    }
  }

  /** Relinking one subtree: a store in which the new subtree `u` is linked,
      hooked under the old one's parent, with the rest of the tree's records
      as they were, is linked to `Replace(t, q, u)`. */
  lemma {:induction false} LinkedReplace(t: Tree, q: seq<Dir>, u: Tree, nodes: seq<NodeRecord>, nodes': seq<NodeRecord>)
    requires Linked(t, nodes) && Distinct(t) && ValidPath(t, q) && q != []
    requires Linked(u, nodes') && |nodes| <= |nodes'|
    requires Hooked(t, q, u, nodes, nodes')
    requires FramedOutside(t, q, IdOf(Sub(t, Parent(q))), nodes, nodes')
    ensures Linked(Replace(t, q, u), nodes')
    decreases q
  {
    var d := q[0];
    var c := Child(t, d);
    var q' := q[1..];
    BelowTop(t, q);
    OtherSide(t, q, nodes, nodes');
    if q' == [] {
      assert Parent(q) == [] && Last(q) == d;
      assert q == [d] && Replace(t, q, u) == SetChild(t, d, u);
      LinkedSetChild(t, d, u, nodes, nodes');
    } else {
      HookedDown(t, q, u, nodes, nodes');
      LinkedReplace(c, q', u, nodes, nodes');
      TopKept(t, q, u, nodes, nodes');
      var c' := Replace(c, q', u);
      assert Replace(t, q, u) == SetChild(t, d, c');
      LinkedSetChild(t, d, c', nodes, nodes');
    }
  }

  /** Above a replacement two or more steps down, the top's record and the
      entered child's `parent` are as they were. */
  lemma TopKept(t: Tree, q: seq<Dir>, u: Tree, nodes: seq<NodeRecord>, nodes': seq<NodeRecord>)
    requires Linked(t, nodes) && Distinct(t) && ValidPath(t, q) && |q| > 1 && |nodes| <= |nodes'|
    requires Hooked(t, q, u, nodes, nodes')
    requires FramedOutside(t, q, IdOf(Sub(t, Parent(q))), nodes, nodes')
    ensures var c := Child(t, q[0]);
            && c.Node? && IdOf(Replace(c, q[1..], u)) == c.id
            && 0 < t.id < |nodes'| && SameLinks(nodes[t.id], nodes'[t.id])
            && c.id < |nodes'| && nodes'[c.id].parent == t.id
  {
    var d := q[0];
    var c := Child(t, d);
    var q' := q[1..];
    var g := IdOf(Sub(t, Parent(q)));
    HookedDown(t, q, u, nodes, nodes');
    BelowTop(t, q);
    BelowTop(c, q');
    LinkedIds(t, nodes);
    assert Ids(t) == Ids(t.l) + {t.id} + Ids(t.r);
    assert c.id in Ids(c) && t.id !in Ids(c) && c.id != t.id;
    assert t.id in Ids(t) && t.id != g;
  }

  /** A node's parent lies above the node's subtree. */
  lemma ParentOutside(t: Tree, p: seq<Dir>)
    requires Distinct(t) && ValidPath(t, p) && p != []
    ensures Sub(t, Parent(p)).Node? && Sub(t, Parent(p)).id !in Ids(Sub(t, p))
    ensures Sub(t, Parent(p)).id in Ids(t)
  {
    SubParent(t, p);
    IdsReplace(t, Parent(p), Leaf);
    NodeIdIn(t, Parent(p));
    var g := Sub(t, Parent(p));
    assert Ids(g) == Ids(g.l) + {g.id} + Ids(g.r);
  }

  /** Writing a node's colour and key. */
  lemma LinkedRelabel(t: Tree, p: seq<Dir>, c: Color, k: Key, nodes: seq<NodeRecord>)
    requires Linked(t, nodes) && Distinct(t) && ValidPath(t, p) && Sub(t, p).Node?
    ensures var n := Sub(t, p);
            && n.id < |nodes|
            && Linked(Replace(t, p, n.(c := c, k := k)), nodes[n.id := nodes[n.id].(color := c, key := k)])
  {
    var n := Sub(t, p);
    var u := n.(c := c, k := k);
    Nav(t, p, nodes);
    var nodes' := nodes[n.id := nodes[n.id].(color := c, key := k)];
    IdsReplace(t, p, Leaf);
    assert Ids(n) == Ids(n.l) + {n.id} + Ids(n.r);
    LinkedFrame(n.l, nodes, nodes');
    LinkedFrame(n.r, nodes, nodes');
    assert Linked(u, nodes');
    if p != [] {
      ParentOutside(t, p);
      SubParent(t, p);
      Nav(t, Parent(p), nodes);
      LinkedIds(t, nodes);
      assert FramedOutside(t, p, IdOf(Sub(t, Parent(p))), nodes, nodes');
      LinkedReplace(t, p, u, nodes, nodes');
    }
  }

  /** A rotation as a rewrite of the subtree at the pivot. */
  lemma RotShape(s: Tree, d: Dir)
    requires s.Node? && Child(s, Flip(d)).Node?
    ensures var c := Child(s, Flip(d));
            Rot(s, d) == SetChild(c, d, SetChild(s, Flip(d), Child(c, d)))
  {
  }

  /** The records a rotation at the pivot `s` rewrites: the lifted child
      `c`, the pivot, the inner subtree `b` that changes sides, and the
      pivot's parent `g`; every other node of the tree keeps its record. */
  predicate RotatedRecords(t: Tree, pp: seq<Dir>, d: Dir, nodes: seq<NodeRecord>, nodes': seq<NodeRecord>)
    requires Sub(t, pp).Node? && Child(Sub(t, pp), Flip(d)).Node?
  {
    var s := Sub(t, pp);
    var c := Child(s, Flip(d));
    var b := Child(c, d);
    var g := if pp == [] then 0 else IdOf(Sub(t, Parent(pp)));
    && |nodes'| == |nodes| && s.id < |nodes| && c.id < |nodes| && IdOf(b) < |nodes| && g < |nodes|
    && (forall i | i in Ids(t) && i < |nodes| && i != s.id && i != c.id && i != g && i != IdOf(b) ::
          nodes'[i] == nodes[i])
    && nodes'[c.id] == SetLink(nodes[c.id], d, s.id).(parent := nodes[s.id].parent)
    && nodes'[s.id] == SetLink(nodes[s.id], Flip(d), IdOf(b)).(parent := c.id)
    && (b.Node? ==> nodes'[b.id] == nodes[b.id].(parent := s.id))
    && (pp != [] ==> nodes'[g] == SetLink(nodes[g], Last(pp), c.id))
  }

  /** The three subtrees a rotation moves around keep their records. */
  lemma RotParts(s: Tree, d: Dir, nodes: seq<NodeRecord>, nodes': seq<NodeRecord>)
    requires Linked(s, nodes) && Distinct(s) && |nodes'| == |nodes|
    requires s.Node? && Child(s, Flip(d)).Node?
    requires var c := Child(s, Flip(d)); var b := Child(c, d);
             && (forall i | i in Ids(s) && i < |nodes| && i != s.id && i != c.id && i != IdOf(b) :: nodes'[i] == nodes[i])
             && (b.Node? ==> b.id < |nodes| && nodes'[b.id] == nodes[b.id].(parent := s.id))
    ensures var c := Child(s, Flip(d)); var a := Child(s, d); var b := Child(c, d); var e := Child(c, Flip(d));
            && Linked(a, nodes') && Linked(b, nodes') && Linked(e, nodes')
            && (a.Node? ==> a.id < |nodes'| && nodes'[a.id].parent == s.id)
            && (e.Node? ==> e.id < |nodes'| && nodes'[e.id].parent == c.id)
            && (b.Node? ==> b.id < |nodes'| && nodes'[b.id].parent == s.id)
  {
    var c := Child(s, Flip(d));
    var moved := {s.id, c.id, IdOf(Child(c, d))};
    RotPartIds(s, d);
    assert forall i | i in Ids(s) && i < |nodes| && i !in moved :: nodes'[i] == nodes[i];
    RotPartOuter(s, d, moved, nodes, nodes');
    RotPartInner(s, d, moved, nodes, nodes');
  }

  /** The subtrees a rotation leaves under the same parent stay linked. */
  lemma RotPartOuter(s: Tree, d: Dir, moved: set<nat>, nodes: seq<NodeRecord>, nodes': seq<NodeRecord>)
    requires Linked(s, nodes) && Distinct(s) && |nodes'| == |nodes|
    requires s.Node? && Child(s, Flip(d)).Node?
    requires moved == {s.id, Child(s, Flip(d)).id, IdOf(Child(Child(s, Flip(d)), d))}
    requires forall i | i in Ids(s) && i < |nodes| && i !in moved :: nodes'[i] == nodes[i]
    ensures var c := Child(s, Flip(d)); var a := Child(s, d); var e := Child(c, Flip(d));
            && Linked(a, nodes') && Linked(e, nodes')
            && (a.Node? ==> a.id < |nodes'| && nodes'[a.id].parent == s.id)
            && (e.Node? ==> e.id < |nodes'| && nodes'[e.id].parent == c.id)
  {
    var c := Child(s, Flip(d));
    var a := Child(s, d);
    var e := Child(c, Flip(d));
    RotPartIds(s, d);
    assert Linked(c, nodes);
    LinkedIds(a, nodes);
    LinkedIds(e, nodes);
    assert Ids(a) * moved == {} && Ids(e) * moved == {};
    PartLinked(a, Ids(s), moved, nodes, nodes', s.id);
    PartLinked(e, Ids(s), moved, nodes, nodes', c.id);
  }

  /** The subtree a rotation hands from one node to the other stays linked. */
  lemma RotPartInner(s: Tree, d: Dir, moved: set<nat>, nodes: seq<NodeRecord>, nodes': seq<NodeRecord>)
    requires Linked(s, nodes) && Distinct(s) && |nodes'| == |nodes|
    requires s.Node? && Child(s, Flip(d)).Node?
    requires var b := Child(Child(s, Flip(d)), d);
             && moved == {s.id, Child(s, Flip(d)).id, IdOf(b)}
             && (b.Node? ==> b.id < |nodes| && nodes'[b.id] == nodes[b.id].(parent := s.id))
    requires forall i | i in Ids(s) && i < |nodes| && i !in moved :: nodes'[i] == nodes[i]
    ensures var b := Child(Child(s, Flip(d)), d);
            && Linked(b, nodes') && (b.Node? ==> b.id < |nodes'| && nodes'[b.id].parent == s.id)
  {
    var c := Child(s, Flip(d));
    RotPartIds(s, d);
    assert Linked(c, nodes);
    PartLinked(Child(c, d), Ids(s), moved, nodes, nodes', s.id);
  }

  /** A subtree inside `inside` that meets the rewritten records `moved` at
      most in its top, whose `parent` now names `top`, stays linked. */
  lemma PartLinked(x: Tree, inside: set<nat>, moved: set<nat>, nodes: seq<NodeRecord>, nodes': seq<NodeRecord>, top: nat)
    requires Linked(x, nodes) && Distinct(x) && |nodes'| == |nodes|
    requires forall i | i in inside && i < |nodes| && i !in moved :: nodes'[i] == nodes[i]
    requires Ids(x) <= inside && Ids(x) * moved <= {IdOf(x)}
    requires x.Node? ==> x.id < |nodes| && SameLinks(nodes[x.id], nodes'[x.id]) && nodes'[x.id].parent == top
    ensures Linked(x, nodes') && (x.Node? ==> nodes'[x.id].parent == top)
  {
    LinkedFrame(x, nodes, nodes');
  }

  /** The three subtrees a rotation moves lie inside the rotated subtree,
      apart from each other and from the two nodes that turn. */
  lemma RotPartIds(s: Tree, d: Dir)
    requires Distinct(s) && s.Node? && Child(s, Flip(d)).Node?
    ensures var c := Child(s, Flip(d)); var a := Child(s, d); var b := Child(c, d); var e := Child(c, Flip(d));
            && Ids(a) <= Ids(s) && Ids(b) <= Ids(s) && Ids(e) <= Ids(s)
            && s.id !in Ids(a) && s.id !in Ids(b) && s.id !in Ids(e)
            && c.id !in Ids(a) && c.id !in Ids(b) && c.id !in Ids(e)
            && Ids(a) !! Ids(b) && Ids(b) !! Ids(e)
            && (b.Node? ==> b.id !in Ids(a) && b.id !in Ids(e))
            && (a.Node? ==> a.id in Ids(a)) && (e.Node? ==> e.id in Ids(e)) && (b.Node? ==> b.id in Ids(b))
  {
    var c := Child(s, Flip(d));
    assert Ids(s) == Ids(s.l) + {s.id} + Ids(s.r);
    assert Ids(c) == Ids(c.l) + {c.id} + Ids(c.r);
  }

  /** The rotated subtree is linked in the rewritten store. */
  lemma RotLinked(t: Tree, pp: seq<Dir>, d: Dir, nodes: seq<NodeRecord>, nodes': seq<NodeRecord>)
    requires Linked(t, nodes) && Distinct(t) && ValidPath(t, pp)
    requires Sub(t, pp).Node? && Child(Sub(t, pp), Flip(d)).Node?
    requires RotatedRecords(t, pp, d, nodes, nodes')
    ensures Linked(Rot(Sub(t, pp), d), nodes')
    ensures nodes'[Child(Sub(t, pp), Flip(d)).id].parent == nodes[Sub(t, pp).id].parent
  {
    var s := Sub(t, pp);
    var c := Child(s, Flip(d));
    var b := Child(c, d);
    var g := if pp == [] then 0 else IdOf(Sub(t, Parent(pp)));
    Nav(t, pp, nodes);
    IdsReplace(t, pp, Leaf);
    if pp != [] {
      ParentOutside(t, pp);
    }
    LinkedIds(s, nodes);
    forall i | i in Ids(s) && i < |nodes| && i != s.id && i != c.id && i != IdOf(b)
      ensures nodes'[i] == nodes[i]
    {
      assert i in Ids(t) && i != g;
    }
    RotParts(s, d, nodes, nodes');
    RotTop(s, d, nodes, nodes');
  }

  lemma RotTop(s: Tree, d: Dir, nodes: seq<NodeRecord>, nodes': seq<NodeRecord>)
    requires Linked(s, nodes) && |nodes'| == |nodes|
    requires s.Node? && Child(s, Flip(d)).Node?
    requires var c := Child(s, Flip(d)); var a := Child(s, d); var b := Child(c, d); var e := Child(c, Flip(d));
             && Linked(a, nodes') && Linked(b, nodes') && Linked(e, nodes')
             && (a.Node? ==> a.id < |nodes'| && nodes'[a.id].parent == s.id)
             && (e.Node? ==> e.id < |nodes'| && nodes'[e.id].parent == c.id)
             && (b.Node? ==> b.id < |nodes'| && nodes'[b.id].parent == s.id)
             && nodes'[c.id] == SetLink(nodes[c.id], d, s.id).(parent := nodes[s.id].parent)
             && nodes'[s.id] == SetLink(nodes[s.id], Flip(d), IdOf(b)).(parent := c.id)
    ensures Linked(Rot(s, d), nodes')
  {
    var c := Child(s, Flip(d));
    var b := Child(c, d);
    var x := SetChild(s, Flip(d), b);
    assert Flip(Flip(d)) == d;
    assert Linked(c, nodes);
    LinkedSetChild(s, Flip(d), b, nodes, nodes');
    LinkedSetChild(c, d, x, nodes, nodes');
    RotShape(s, d);
  }

  /** A rotation done on the records is the rotation of the tree. */
  lemma LinkedRotate(t: Tree, pp: seq<Dir>, d: Dir, nodes: seq<NodeRecord>, nodes': seq<NodeRecord>)
    requires Linked(t, nodes) && Distinct(t) && ValidPath(t, pp)
    requires Sub(t, pp).Node? && Child(Sub(t, pp), Flip(d)).Node?
    requires RotatedRecords(t, pp, d, nodes, nodes')
    ensures Linked(RotateAt(t, pp, d), nodes')
  {
    var s := Sub(t, pp);
    var c := Child(s, Flip(d));
    var b := Child(c, d);
    RotLinked(t, pp, d, nodes, nodes');
    if pp != [] {
      var g := IdOf(Sub(t, Parent(pp)));
      Nav(t, pp, nodes);
      SubParent(t, pp);
      Nav(t, Parent(pp), nodes);
      ParentOutside(t, pp);
      IdsReplace(t, pp, Leaf);
      assert Ids(s) == Ids(s.l) + {s.id} + Ids(s.r);
      assert Ids(c) == Ids(c.l) + {c.id} + Ids(c.r);
      if b.Node? {
        assert b.id in Ids(b);
      }
      LinkedIds(t, nodes);
      LinkedReplace(t, pp, Rot(s, d), nodes, nodes');
    }
  }

  // ---------------------------------------------------------------------
  // Unlinking a node

  /** The store after the node at `sp` (at most one child) is cut out: its
      parent's link on that side names the replacement `r`, and `r`'s
      `parent` names the parent.  Nothing else changes among the live
      slots. */
  predicate Unlinked(t: Tree, sp: seq<Dir>, nodes: seq<NodeRecord>, nodes': seq<NodeRecord>)
    requires sp != [] && Sub(t, sp).Node?
  {
    var g := IdOf(Sub(t, Parent(sp)));
    var r := IdOf(Spliced(Sub(t, sp)));
    && |nodes'| == |nodes| && g < |nodes| && r < |nodes|
    && nodes'[g] == SetLink(nodes[g], Last(sp), r)
    && (r != 0 ==> nodes'[r] == nodes[r].(parent := g))
    && (forall i | 0 < i < |nodes| && i != g && i != r :: nodes'[i] == nodes[i])
  }

  /** Cutting out a node with at most one child, as the records see it:
      the store is linked to `Unlink(t, sp)`, whose nodes are those of `t`
      but the one cut out. */
  lemma UnlinkLinked(t: Tree, sp: seq<Dir>, nodes: seq<NodeRecord>, nodes': seq<NodeRecord>)
    requires Linked(t, nodes) && Distinct(t) && ValidPath(t, sp) && sp != []
    requires Sub(t, sp).Node? && !TwoChildren(Sub(t, sp))
    requires Unlinked(t, sp, nodes, nodes')
    ensures Linked(Unlink(t, sp), nodes') && Distinct(Unlink(t, sp))
    ensures Ids(Unlink(t, sp)) == Ids(t) - {Sub(t, sp).id}
  {
    UnlinkIds(t, sp);
    UnlinkHooked(t, sp, nodes, nodes');
    LinkedReplace(t, sp, Spliced(Sub(t, sp)), nodes, nodes');
  }

  /** The records written by `Unlinked` hook the spliced child under the
      cut node's parent and leave the rest of the tree as it was. */
  lemma UnlinkHooked(t: Tree, sp: seq<Dir>, nodes: seq<NodeRecord>, nodes': seq<NodeRecord>)
    requires Linked(t, nodes) && Distinct(t) && ValidPath(t, sp) && sp != []
    requires Sub(t, sp).Node? && !TwoChildren(Sub(t, sp))
    requires Unlinked(t, sp, nodes, nodes')
    ensures Linked(Spliced(Sub(t, sp)), nodes')
    ensures Hooked(t, sp, Spliced(Sub(t, sp)), nodes, nodes')
    ensures FramedOutside(t, sp, IdOf(Sub(t, Parent(sp))), nodes, nodes')
  {
    var y := Sub(t, sp);
    var u := Spliced(y);
    Nav(t, sp, nodes);
    SubParent(t, sp);
    ParentOutside(t, sp);
    IdsReplace(t, sp, u);
    assert Ids(y) == Ids(y.l) + {y.id} + Ids(y.r);
    LinkedIds(t, nodes);
    LinkedFrame(u, nodes, nodes');
  }

  /** `t->root->color = RBTREE_BLACK` on a tree whose top may be the
      sentinel. */
  lemma LinkedBlackTop(u: Tree, nodes: seq<NodeRecord>)
    requires Linked(u, nodes) && Distinct(u) && IdOf(u) < |nodes|
    ensures Linked(RecolorAt(u, [], Black), nodes[IdOf(u) := nodes[IdOf(u)].(color := Black)])
  {
    if u.Node? {
      LinkedRelabel(u, [], Black, u.k, nodes);
      assert nodes[u.id].(color := Black, key := u.k) == nodes[u.id].(color := Black);
    }
  }

  // ---------------------------------------------------------------------
  // Writing a colour

  /** Slots other than `nil` outside `ids` keep their records, and every
      slot keeps its key. */
  predicate StoreFrame(nodes: seq<NodeRecord>, nodes': seq<NodeRecord>, ids: set<nat>) {
    && |nodes| <= |nodes'|
    && (forall i | 0 < i < |nodes| && i !in ids :: nodes'[i] == nodes[i])
    && (forall i | 0 < i < |nodes| :: nodes'[i].key == nodes[i].key)
  }

  /** Two steps that each keep the records outside their nodes keep the
      records outside the first step's nodes, when the second step's nodes
      among the old slots are among them. */
  lemma StoreFrameTrans(a: seq<NodeRecord>, b: seq<NodeRecord>, c: seq<NodeRecord>, ids1: set<nat>, ids2: set<nat>)
    requires StoreFrame(a, b, ids1) && StoreFrame(b, c, ids2)
    requires forall i | 0 < i < |a| && i in ids2 :: i in ids1
    ensures StoreFrame(a, c, ids1)
  {
  }

  /** `node->color = c` for the node at `p`: the tree is recoloured there
      and no other field of any record changes. */
  method Paint(t: RbTree, x: nat, c: Color, ghost p: seq<Dir>)
    requires t.Wellformed() && ValidPath(t.tree, p) && Sub(t.tree, p).Node? && Sub(t.tree, p).id == x
    modifies t
    ensures t.Wellformed() && t.tree == RecolorAt(old(t.tree), p, c) && t.root == old(t.root)
    ensures x < |old(t.nodes)| && t.nodes == old(t.nodes)[x := old(t.nodes)[x].(color := c)]
    ensures StoreFrame(old(t.nodes), t.nodes, old(Ids(t.tree)))
  {
    Nav(t.tree, p, t.nodes);
    LinkedRelabel(t.tree, p, c, Sub(t.tree, p).k, t.nodes);
    RecolorKeeps(t.tree, p, c, []);
    t.nodes := t.nodes[x := t.nodes[x].(color := c)];
    t.tree := RecolorAt(t.tree, p, c);
  }

  // ---------------------------------------------------------------------
  // Store rewrites shared by both implementations

  /** The two writes that cut a node out: the parent `g` takes `r` as its
      child on side `d`, and `r` takes `g` as its parent. */
  function CutWrites(n: seq<NodeRecord>, g: nat, d: Dir, r: nat): seq<NodeRecord>
    requires g < |n| && r < |n|
  {
    var n1 := n[g := SetLink(n[g], d, r)];
    n1[r := n1[r].(parent := g)]
  }

  /** Slot by slot, what `CutWrites` leaves in the store. */
  lemma CutWritesAt(n: seq<NodeRecord>, g: nat, d: Dir, r: nat)
    requires g < |n| && r < |n| && g != r
    ensures var n' := CutWrites(n, g, d, r);
            && |n'| == |n| && n'[g] == SetLink(n[g], d, r) && n'[r] == n[r].(parent := g)
            && forall i | 0 <= i < |n| && i != g && i != r :: n'[i] == n[i]
  {
  }

  /** The cut below the root writes only slots of the tree (or `nil`), keeps
      every key, and leaves the root's `parent` as it was. */
  lemma CutFrame(t: Tree, sp: seq<Dir>, nodes: seq<NodeRecord>)
    requires Linked(t, nodes) && Distinct(t) && ValidPath(t, sp) && sp != []
    requires Sub(t, sp).Node? && !TwoChildren(Sub(t, sp))
    ensures var g := IdOf(Sub(t, Parent(sp))); var r := IdOf(Spliced(Sub(t, sp)));
            && g < |nodes| && r < |nodes|
            && var n' := CutWrites(nodes, g, Last(sp), r);
               && StoreFrame(nodes, n', Ids(t))
               && t.Node? && n'[t.id].parent == nodes[t.id].parent
  {
    var y := Sub(t, sp);
    var g := IdOf(Sub(t, Parent(sp)));
    var r := IdOf(Spliced(y));
    ParentOutside(t, sp);
    BelowTop(t, sp);
    IdsReplace(t, sp, Leaf);
    LinkedIds(t, nodes);
    assert Ids(y) == Ids(y.l) + {y.id} + Ids(y.r);
    if Spliced(y).Node? {
      assert r in Ids(Spliced(y)) && r in Ids(y);
    }
    assert r == 0 || r in Ids(t);
    assert t.id in Ids(t) && t.id != r;
    CutWritesFrame(nodes, g, Last(sp), r, Ids(t));
  }

  /** The cut's two writes stay inside a set of slots holding both. */
  lemma CutWritesFrame(n: seq<NodeRecord>, g: nat, d: Dir, r: nat, ids: set<nat>)
    requires g < |n| && r < |n| && g != r && g in ids && (r == 0 || r in ids)
    ensures var n' := CutWrites(n, g, d, r);
            && StoreFrame(n, n', ids)
            && forall i | 0 <= i < |n| && i != r :: n'[i].parent == n[i].parent
  {
    CutWritesAt(n, g, d, r);
  }

  /** What the cut reads and writes, at the record level: the slots read,
      and a store after `CutWrites` that spells out `Unlink(t, sp)`. */
  lemma CutStore(t: Tree, sp: seq<Dir>, nodes: seq<NodeRecord>)
    requires Linked(t, nodes) && Distinct(t) && ValidPath(t, sp) && sp != []
    requires Sub(t, sp).Node? && !TwoChildren(Sub(t, sp))
    ensures var y := Sub(t, sp); var g := IdOf(Sub(t, Parent(sp))); var r := IdOf(Spliced(y));
            && Sub(t, Parent(sp)).Node? && g < |nodes| && r < |nodes| && 0 < y.id < |nodes|
            && y.id != IdOf(t) && nodes[y.id].color == y.c && nodes[y.id].parent == g
            && (nodes[g].left == y.id <==> Last(sp) == L)
            && var n' := CutWrites(nodes, g, Last(sp), r);
               && |n'| == |nodes| && n'[0].color == nodes[0].color
               && Linked(Unlink(t, sp), n') && Distinct(Unlink(t, sp))
               && Ids(Unlink(t, sp)) == Ids(t) - {y.id}
               && IdOf(Unlink(t, sp)) == IdOf(t)
               && Sub(Unlink(t, sp), Parent(sp)).Node? && Sub(Unlink(t, sp), Parent(sp)).id == g
  {
    var y := Sub(t, sp);
    Nav(t, sp, nodes);
    SubParent(t, sp);
    Nav(t, Parent(sp), nodes);
    IdsReplace(t, Parent(sp), Leaf);
    SidesDiffer(Sub(t, Parent(sp)));
    var g := IdOf(Sub(t, Parent(sp)));
    var r := IdOf(Spliced(y));
    LinkedIds(t, nodes);
    ParentOutside(t, sp);
    assert Ids(y) == Ids(y.l) + {y.id} + Ids(y.r);
    assert r != 0 ==> r in Ids(y);
    var n' := CutWrites(nodes, g, Last(sp), r);
    CutWritesAt(nodes, g, Last(sp), r);
    assert Unlinked(t, sp, nodes, n');
    UnlinkLinked(t, sp, nodes, n');
    ReplaceKeepsRoot(t, sp, Spliced(y));
    ReplaceOff(t, sp, Spliced(y), Parent(sp));
  }

  /** `a` with `w` written over it from index `i` on. */
  function Overwrite(a: seq<Key>, i: nat, w: seq<Key>): (b: seq<Key>)
    requires i + |w| <= |a|
    ensures |b| == |a|
  {
    a[..i] + w + a[i + |w|..]
  }

  lemma OverwriteNone(a: seq<Key>, i: nat)
    requires i <= |a|
    ensures Overwrite(a, i, []) == a
  {
  }

  /** Writing `wl`, then `k`, then `wr` one after the other writes their
      concatenation. */
  lemma OverwriteSteps(a0: seq<Key>, a1: seq<Key>, a2: seq<Key>, a3: seq<Key>,
                       i: nat, wl: seq<Key>, k: Key, wr: seq<Key>)
    requires i + |wl| + 1 + |wr| <= |a0|
    requires a1 == Overwrite(a0, i, wl) && a2 == a1[i + |wl| := k]
    requires a3 == Overwrite(a2, i + |wl| + 1, wr)
    ensures a3 == Overwrite(a0, i, wl + [k] + wr)
  {
    var m := i + |wl|;
    var c := Overwrite(a0, i, wl + [k] + wr);
    assert |a3| == |c|;
    forall j | 0 <= j < |a3| ensures a3[j] == c[j] {
      if j < i {
      } else if j < m {
        assert a3[j] == wl[j - i] && c[j] == (wl + [k] + wr)[j - i];
      } else if j == m {
      } else if j < m + 1 + |wr| {
        assert a3[j] == wr[j - m - 1] && c[j] == (wl + [k] + wr)[j - i];
      }
    }
  }

  /** The four slots a rotation writes are in the store and told apart;
      the parent's link to the pivot is on the pivot's side, and every
      node of the subtree other than the top lies in the tree. */
  predicate RotSlotsOk(t: Tree, pp: seq<Dir>, d: Dir, nodes: seq<NodeRecord>) {
    && ValidPath(t, pp) && Sub(t, pp).Node? && Child(Sub(t, pp), Flip(d)).Node?
    && var s := Sub(t, pp); var c := Child(s, Flip(d)); var b := IdOf(Child(c, d));
       var g := if pp == [] then 0 else IdOf(Sub(t, Parent(pp)));
       && g < |nodes| && s.id < |nodes| && c.id < |nodes| && b < |nodes|
       && s.id != c.id && b != s.id && b != c.id && 0 < s.id && 0 < c.id
       && (pp != [] ==> g != s.id && g != c.id && g != b && 0 < g && g in Ids(t)
                        && (if nodes[g].left == s.id then L else R) == Last(pp))
       && c.id in Ids(t) && (b != 0 ==> b in Ids(t))
  }

  lemma RotSlots(t: Tree, pp: seq<Dir>, d: Dir, nodes: seq<NodeRecord>)
    requires Linked(t, nodes) && Distinct(t) && ValidPath(t, pp)
    requires Sub(t, pp).Node? && Child(Sub(t, pp), Flip(d)).Node?
    ensures RotSlotsOk(t, pp, d, nodes)
  {
    RotIds(t, pp, d);
    LinkedIds(t, nodes);
    if pp != [] {
      var g := IdOf(Sub(t, Parent(pp)));
      SubParent(t, pp);
      IdsReplace(t, Parent(pp), Leaf);
      Nav(t, Parent(pp), nodes);
      SidesDiffer(Sub(t, Parent(pp)));
      assert (if nodes[g].left == Sub(t, pp).id then L else R) == Last(pp);
    }
  }

  /** The nodes a rotation at `pp` moves are distinct nodes of the tree. */
  lemma RotIds(t: Tree, pp: seq<Dir>, d: Dir)
    requires Distinct(t) && ValidPath(t, pp)
    requires Sub(t, pp).Node? && Child(Sub(t, pp), Flip(d)).Node?
    ensures var s := Sub(t, pp); var c := Child(s, Flip(d)); var b := IdOf(Child(c, d));
            var g := if pp == [] then 0 else IdOf(Sub(t, Parent(pp)));
            && s.id != c.id && b != s.id && b != c.id && 0 < s.id && 0 < c.id
            && s.id in Ids(t) && c.id in Ids(t) && (b != 0 ==> b in Ids(t))
            && (pp != [] ==> g != s.id && g != c.id && g != b && 0 < g && g in Ids(t))
  {
    var s := Sub(t, pp);
    var c := Child(s, Flip(d));
    var b := Child(c, d);
    var cp := pp + [Flip(d)];
    SubAppend(t, pp, Flip(d));
    SubAppend(t, cp, d);
    NodeIdIn(t, pp);
    NodeIdIn(t, cp);
    if b.Node? {
      NodeIdIn(t, cp + [d]);
    }
    IdsReplace(t, pp, Leaf);
    assert Ids(s) == Ids(s.l) + {s.id} + Ids(s.r);
    assert Ids(c) == Ids(c.l) + {c.id} + Ids(c.r);
    assert c.id in Ids(c) && s.id !in Ids(c);
    if b.Node? {
      assert b.id in Ids(b);
    }
    if pp != [] {
      ParentOutside(t, pp);
      SubParent(t, pp);
      IdsReplace(t, Parent(pp), Leaf);
    }
  }

  /** Two writes to different slots can be done in either order. */
  lemma UpdatesCommute(m: seq<NodeRecord>, i: nat, x: NodeRecord, j: nat, y: NodeRecord)
    requires i < |m| && j < |m| && i != j
    ensures m[i := x][j := y] == m[j := y][i := x]
  {
  }

  /** Everything the fixup of `rbtree_insert` starts from: the store is
      linked to the tree with the new node hung, the nodes stay distinct,
      the in-order keys gain `key`, and the new RED node is the only
      possible defect. */
  lemma HangReady(t: Tree, key: Key, id: nat, nodes: seq<NodeRecord>, nodes': seq<NodeRecord>)
    requires Linked(t, nodes) && Distinct(t) && ValidRB(t) && id == |nodes| && |nodes'| == id + 1
    requires var ip := InsertPath(t, key);
             && nodes'[id] == NodeRecord(Red, key, if ip == [] then 0 else IdOf(Sub(t, Parent(ip))), 0, 0)
             && (ip != [] ==> var g := IdOf(Sub(t, Parent(ip)));
                               && g < |nodes|
                               && nodes'[g] == SetLink(nodes[g], Last(ip), id)
                               && forall i | 0 < i < |nodes| && i != g :: nodes'[i] == nodes[i])
             && (ip == [] ==> forall i | 0 < i < |nodes| :: nodes'[i] == nodes[i])
    ensures var h := Hang(t, key, id); var ip := InsertPath(t, key);
            && Linked(h, nodes') && Distinct(h) && Ids(h) == Ids(t) + {id}
            && InsertFixInv(h, ip) && Sub(h, ip).id == id
            && IdOf(h) == (if ip == [] then id else IdOf(t))
            && InOrder(h) == InsertSorted(InOrder(t), key)
  {
    var ip := InsertPath(t, key);
    var u := Node(Red, Leaf, key, Leaf, id);
    LinkedIds(t, nodes);
    HangLinked(t, key, id, nodes, nodes');
    HangFixInv(t, key, id);
    HangInOrder(t, key, id);
    ReplaceAt(t, ip, u);
    if ip != [] {
      ReplaceKeepsRoot(t, ip, u);
    }
  }

  /** The store after `rbtree_insert` has linked its new node is linked to
      the tree with the node hung where the descent ended. */
  lemma HangLinked(t: Tree, key: Key, id: nat, nodes: seq<NodeRecord>, nodes': seq<NodeRecord>)
    requires Linked(t, nodes) && Distinct(t) && id == |nodes| && |nodes'| == id + 1
    requires var ip := InsertPath(t, key);
             && nodes'[id] == NodeRecord(Red, key, if ip == [] then 0 else IdOf(Sub(t, Parent(ip))), 0, 0)
             && (ip != [] ==> var g := IdOf(Sub(t, Parent(ip)));
                               && g < |nodes|
                               && nodes'[g] == SetLink(nodes[g], Last(ip), id)
                               && forall i | 0 < i < |nodes| && i != g :: nodes'[i] == nodes[i])
             && (ip == [] ==> forall i | 0 < i < |nodes| :: nodes'[i] == nodes[i])
    ensures Linked(Hang(t, key, id), nodes')
  {
    var ip := InsertPath(t, key);
    var u := Node(Red, Leaf, key, Leaf, id);
    if ip != [] {
      var g := IdOf(Sub(t, Parent(ip)));
      SubParent(t, ip);
      Nav(t, Parent(ip), nodes);
      LinkedIds(t, nodes);
      assert Hooked(t, ip, u, nodes, nodes');
      assert FramedOutside(t, ip, g, nodes, nodes');
      LinkedReplace(t, ip, u, nodes, nodes');
    }
  }
}
