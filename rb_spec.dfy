// The value-level model of a red-black tree of keys: what the pointer
// structure of rbtree.h denotes once the node ids are forgotten.

module RbSpec {

  /** `key_t` is a C `int`; keys are only ever compared, never computed with. */
  newtype Key = x: int | -0x8000_0000 <= x < 0x8000_0000

  /** `color_t`: RBTREE_RED is 0 and RBTREE_BLACK is 1. */
  datatype Color = Red | Black

  /** The enumerator value of a colour, as C stores it. */
  function ColorCode(c: Color): (v: int)
    ensures v == 0 || v == 1
    ensures (v != 0) <==> (c == Black)
  {
    match c
    case Red => 0
    case Black => 1
  }

  /** A tree as the caller sees it: the sentinel is a Leaf.  `id` names the
      `node_t` that holds the entry (its slot in the node store), so that the
      value also records which node sits where. */
  datatype Tree = Leaf | Node(c: Color, l: Tree, k: Key, r: Tree, id: nat)

  /** A step from a node to one of its children. */
  datatype Dir = L | R

  function Flip(d: Dir): Dir {
    if d == L then R else L
  }

  function Child(t: Tree, d: Dir): Tree
    requires t.Node?
  {
    if d == L then t.l else t.r
  }

  /** The sentinel is BLACK. */
  function ColorOf(t: Tree): Color {
    if t.Leaf? then Black else t.c
  }

  function Size(t: Tree): nat {
    match t
    case Leaf => 0
    case Node(_, l, _, r, _) => Size(l) + 1 + Size(r)
  }

  /** The keys in in-order (left, node, right): what `rbtree_to_array` writes. */
  function InOrder(t: Tree): (s: seq<Key>)
    ensures |s| == Size(t)
  {
    match t
    case Leaf => []
    case Node(_, l, k, r, _) => InOrder(l) + [k] + InOrder(r)
  }

  /** The slot of the node at the top of `t`; 0 is the sentinel `nil`. */
  function IdOf(t: Tree): nat {
    if t.Leaf? then 0 else t.id
  }

  /** The slots of all nodes of `t`. */
  function Ids(t: Tree): set<nat> {
    match t
    case Leaf => {}
    case Node(_, l, _, r, id) => Ids(l) + {id} + Ids(r)
  }

  /** No node appears twice, and no node is the sentinel. */
  predicate Distinct(t: Tree) {
    match t
    case Leaf => true
    case Node(_, l, _, r, id) =>
      && Distinct(l) && Distinct(r)
      && id != 0 && id !in Ids(l) && id !in Ids(r) && Ids(l) !! Ids(r)
  }

  function Keys(t: Tree): multiset<Key> {
    multiset(InOrder(t))
  }

  predicate Sorted(s: seq<Key>) {
    forall i, j | 0 <= i < j < |s| :: s[i] <= s[j]
  }

  /** Search-tree order: keys of the left subtree are <= the node's key, keys
      of the right subtree are >= it.  Equal keys may sit on either side: the
      descent routes them right, but a rotation can lift a right descendant
      with an equal key above its ancestor. */
  predicate Ordered(t: Tree) {
    match t
    case Leaf => true
    case Node(_, l, k, r, _) =>
      && Ordered(l) && Ordered(r)
      && (forall x | x in InOrder(l) :: x <= k)
      && (forall x | x in InOrder(r) :: k <= x)
  }

  lemma SortedConcatSplit(a: seq<Key>, k: Key, b: seq<Key>)
    requires Sorted(a + [k] + b)
    ensures Sorted(a) && Sorted(b)
    ensures forall x | x in a :: x <= k
    ensures forall x | x in b :: k <= x
  {
    var s := a + [k] + b;
    assert forall i | 0 <= i < |a| :: s[i] == a[i];
    assert forall i | 0 <= i < |b| :: s[|a| + 1 + i] == b[i];
    assert s[|a|] == k;
  }

  lemma SortedConcatJoin(a: seq<Key>, k: Key, b: seq<Key>)
    requires Sorted(a) && Sorted(b)
    requires forall x | x in a :: x <= k
    requires forall x | x in b :: k <= x
    ensures Sorted(a + [k] + b)
  {
    var s := a + [k] + b;
    forall i, j | 0 <= i < j < |s| ensures s[i] <= s[j] {
      if j < |a| {
        assert s[i] == a[i] && s[j] == a[j];
      } else if j == |a| {
        assert s[i] == a[i] && s[i] in a;
      } else if i < |a| {
        assert s[i] == a[i] && s[i] in a;
        assert s[j] == b[j - |a| - 1] && s[j] in b;
      } else if i == |a| {
        assert s[j] == b[j - |a| - 1] && s[j] in b;
      } else {
        assert s[i] == b[i - |a| - 1] && s[j] == b[j - |a| - 1];
      }
    }
  }

  /** Search-tree order is exactly "the in-order sequence is non-decreasing". */
  lemma {:induction false} OrderedIffSorted(t: Tree)
    ensures Ordered(t) <==> Sorted(InOrder(t))
  {
    match t
    case Leaf =>
    case Node(_, l, k, r, _) =>
      OrderedIffSorted(l);
      OrderedIffSorted(r);
      if Sorted(InOrder(t)) {
        SortedConcatSplit(InOrder(l), k, InOrder(r));
      }
      if Ordered(t) {
        SortedConcatJoin(InOrder(l), k, InOrder(r));
      }
  }

  /** Black nodes on the leftmost path, the node itself included, the sentinel
      not counted. */
  function BH(t: Tree): nat {
    match t
    case Leaf => 0
    case Node(c, l, _, _, _) => BH(l) + (if c == Black then 1 else 0)
  }

  /** Every path from a node down to the sentinel meets the same number of
      BLACK nodes. */
  predicate Balanced(t: Tree) {
    match t
    case Leaf => true
    case Node(_, l, _, r, _) => Balanced(l) && Balanced(r) && BH(l) == BH(r)
  }

  /** No RED node has a RED child. */
  predicate RedOk(t: Tree) {
    match t
    case Leaf => true
    case Node(c, l, _, r, _) =>
      RedOk(l) && RedOk(r) && (c == Red ==> ColorOf(l) == Black && ColorOf(r) == Black)
  }

  /** The colour invariants of a tree whose root is `t->root`. */
  predicate IsRB(t: Tree) {
    ColorOf(t) == Black && RedOk(t) && Balanced(t)
  }

  /** Everything a well-formed tree promises its caller. */
  predicate ValidRB(t: Tree) {
    IsRB(t) && Ordered(t)
  }

  /** Left rotation at a pivot: the pivot's right child is lifted above it. */
  function RotL(t: Tree): (u: Tree)
    requires t.Node? && t.r.Node?
    ensures u.Node? && u.l.Node?
    ensures InOrder(u) == InOrder(t)
    ensures u.c == t.r.c && u.l.c == t.c
    ensures Ids(u) == Ids(t) && (Distinct(t) ==> Distinct(u))
  {
    var x := Node(t.c, t.l, t.k, t.r.l, t.id);
    assert Distinct(t) ==> Distinct(t.r) && Distinct(x);
    Node(t.r.c, x, t.r.k, t.r.r, t.r.id)
  }

  /** Right rotation at a pivot: the pivot's left child is lifted above it. */
  function RotR(t: Tree): (u: Tree)
    requires t.Node? && t.l.Node?
    ensures u.Node? && u.r.Node?
    ensures InOrder(u) == InOrder(t)
    ensures u.c == t.l.c && u.r.c == t.c
    ensures Ids(u) == Ids(t) && (Distinct(t) ==> Distinct(u))
  {
    var y := Node(t.c, t.l.r, t.k, t.r, t.id);
    assert Distinct(t) ==> Distinct(t.l) && Distinct(y);
    Node(t.l.c, t.l.l, t.l.k, y, t.l.id)
  }

  /** Rotation that moves the pivot down on side `d`, lifting its child on the
      other side. */
  function Rot(t: Tree, d: Dir): (u: Tree)
    requires t.Node? && Child(t, Flip(d)).Node?
    ensures u.Node? && Child(u, d).Node?
    ensures InOrder(u) == InOrder(t)
    ensures Ids(u) == Ids(t) && (Distinct(t) ==> Distinct(u))
  {
    if d == L then RotL(t) else RotR(t)
  }

  /** The same node with colour `c`. */
  function Recolor(t: Tree, c: Color): (u: Tree)
    requires t.Node?
    ensures u.Node? && u.c == c
    ensures InOrder(u) == InOrder(t)
    ensures Ids(u) == Ids(t) && Distinct(u) == Distinct(t)
  {
    t.(c := c)
  }

  /** `t` with its child on side `d` replaced by `u`. */
  function SetChild(t: Tree, d: Dir, u: Tree): (v: Tree)
    requires t.Node?
    ensures v.Node? && Child(v, d) == u && Child(v, Flip(d)) == Child(t, Flip(d))
    ensures v.c == t.c && v.k == t.k && v.id == t.id
  {
    if d == L then t.(l := u) else t.(r := u)
  }
}
