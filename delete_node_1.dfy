// practice/delete_node_1.c: a draft of `rbtree_erase` that copies the
// successor's key into the erased node, as src/rbtree.c does.  The file
// calls `get_next_node` and a `(parent, is_left)` `rbtree_erase_fixup`
// without defining them; the first is given here by what its name and use
// promise, the second is the fixup of src/rbtree.c, whose signature it
// shares.  The cut and the fixup (lines 24-54) are statement for statement
// those of src/rbtree.c and run as `SrcRbtree.EraseAt`.

module DeleteNode1 {
  import opened RbSpec
  import opened RbPaths
  import opened RbInvariants
  import opened RbOps
  import opened RbNodes
  import SrcRbtree

  /** `get_next_node(t, delete)`: the node with the smallest key in the
      right subtree of `delete`, reached by descending left from
      `delete->right`. */
  method GetNextNode(t: RbTree, delete: nat, ghost zp: seq<Dir>) returns (next: nat)
    requires t.Valid() && ValidPath(t.tree, zp) && Sub(t.tree, zp).Node? && Sub(t.tree, zp).id == delete
    requires Sub(t.tree, zp).r.Node?
    ensures var s := Sub(t.tree, zp).r;
            && ValidPath(t.tree, zp + [R] + MinPath(s)) && Sub(t.tree, zp + [R] + MinPath(s)) == Sub(s, MinPath(s))
            && next == Sub(s, MinPath(s)).id && 0 < next < |t.nodes|
            && t.nodes[next].key == InOrder(s)[0]
            && (forall x | x in InOrder(s) :: t.nodes[next].key <= x)
  {
    Nav(t.tree, zp, t.nodes);
    SubAppend(t.tree, zp, R);
    next := SrcRbtree.SuccessorFind(t, t.nodes[delete].right, zp + [R]);
  }

  /** Step 1: with two children, `delete` takes the key of its successor
      `remove` (its colour is kept), and `remove`'s right child is the
      replacement; otherwise `delete` itself is removed and is replaced by
      its right child when that is not `nil`, else by its left child
      (possibly `nil`).  The node to remove sits at `ErasePos` and has at
      most one child. */
  method ChooseRemove(t: RbTree, delete: nat, ghost zp: seq<Dir>) returns (remove: nat, replaceNode: nat)
    requires t.Valid() && ValidPath(t.tree, zp) && Sub(t.tree, zp).Node? && Sub(t.tree, zp).id == delete
    modifies t
    ensures var t0 := old(t.tree); var z := Sub(t0, zp); var sp := ErasePos(t0, zp);
            && t.Wellformed() && t.root == old(t.root) && |t.nodes| == |old(t.nodes)|
            && t.tree == (if TwoChildren(z) then RelabelAt(t0, zp, Sub(z.r, MinPath(z.r)).k, delete) else t0)
            && ValidPath(t.tree, sp) && Sub(t.tree, sp) == Sub(t0, sp)
            && Sub(t0, sp).Node? && !TwoChildren(Sub(t0, sp))
            && remove == IdOf(Sub(t0, sp)) && replaceNode == IdOf(Spliced(Sub(t0, sp)))
    ensures delete < |t.nodes| && forall i | 0 <= i < |t.nodes| && i != delete :: t.nodes[i] == old(t.nodes[i])
    ensures var z := old(Sub(t.tree, zp));
            t.nodes[delete] == old(t.nodes[delete]).(key := if TwoChildren(z) then Sub(z.r, MinPath(z.r)).k else z.k)
  {
    ghost var t0 := t.tree;
    ghost var z := Sub(t0, zp);
    EraseAsUnlink(t0, zp, delete);
    Nav(t0, zp, t.nodes);
    NilIffLeaf(z, t.nodes);
    if t.nodes[delete].left != 0 && t.nodes[delete].right != 0 {
      remove := GetNextNode(t, delete, zp);
      ghost var y := Sub(z.r, MinPath(z.r));
      assert zp + [R] + MinPath(z.r) == ErasePos(t0, zp);
      Nav(t0, ErasePos(t0, zp), t.nodes);
      replaceNode := t.nodes[remove].right;
      LinkedRelabel(t0, zp, z.c, y.k, t.nodes);
      t.nodes := t.nodes[delete := t.nodes[delete].(key := t.nodes[remove].key)];
      IdsReplace(t0, zp, z.(k := y.k));
      t.tree := RelabelAt(t0, zp, y.k, delete);
      if zp != [] {
        ReplaceKeepsRoot(t0, zp, z.(k := y.k));
      }
    } else {
      remove := delete;
      replaceNode := if t.nodes[remove].right != 0 then t.nodes[remove].right else t.nodes[remove].left;
    }
  }

  /** `rbtree_erase`: the node `delete` (at `zp`) leaves the tree.  Exactly
      its key leaves the in-order sequence, the node at `ErasePos` is the
      one unlinked, every colour invariant holds again, and the result is
      always 0. */
  method Erase(t: RbTree, delete: nat, ghost zp: seq<Dir>) returns (r: int)
    requires t.Valid() && ValidPath(t.tree, zp) && Sub(t.tree, zp).Node? && Sub(t.tree, zp).id == delete
    modifies t
    ensures r == 0 && t.Valid() && |t.nodes| == |old(t.nodes)|
    ensures var s := old(InOrder(t.tree)); var i := old(InIndex(t.tree, zp));
            && i < |s| && s[i] == old(Sub(t.tree, zp).k) && InOrder(t.tree) == s[..i] + s[i + 1..]
    ensures Ids(t.tree) == old(Ids(t.tree) - {IdOf(Sub(t.tree, ErasePos(t.tree, zp)))})
    ensures delete < |t.nodes| && forall i | 0 < i < |t.nodes| && i != delete :: t.nodes[i].key == old(t.nodes[i].key)
    ensures var z := old(Sub(t.tree, zp));
            t.nodes[delete].key == (if TwoChildren(z) then Sub(z.r, MinPath(z.r)).k else z.k)
  {
    ghost var t0 := t.tree;
    ghost var sp := ErasePos(t0, zp);
    ghost var z := Sub(t0, zp);
    ghost var newKey := if TwoChildren(z) then Sub(z.r, MinPath(z.r)).k else z.k;
    EraseKeyCopySpec(t0, zp);
    OrderedIffSorted(EraseByKeyCopy(t0, zp));
    Nav(t0, zp, t.nodes);
    var remove, replaceNode := ChooseRemove(t, delete, zp);
    ghost var n1 := t.nodes;
    assert 0 < delete < |n1| && n1[delete].key == newKey;
    assert Unlink(t.tree, sp) == EraseByKeyCopy(t0, zp);
    SrcRbtree.EraseAt(t, remove, replaceNode, sp, BH(t0));
    assert forall i | 0 < i < |t.nodes| :: t.nodes[i].key == n1[i].key;
    assert t.nodes[delete].key == newKey;
    OrderedIffSorted(t.tree);
    return 0;
  }
}
