# Red-black tree (src, practice and a draft erase), modelled in Dafny

The repository implements the `rbtree.h` interface of a red-black tree with a
shared BLACK sentinel `nil` three times:

- `src/rbtree.c`: rotations that take the child being lifted, recursive
  fixups, and an erase that copies the successor's key into the erased node;
- `practice/rbtree.c`: rotations that take the pivot going down, fixups
  written as loops, and an erase that moves the successor node itself into
  the erased node's place (`rbtree_transplant`);
- `practice/delete_node_1.c`: a draft of the key-copy erase.

The model keeps the C code's form. A `node_t` is a `NodeRecord` (colour, key,
parent, left, right) in one node store `RbTree.nodes: seq<NodeRecord>`. A
pointer is the slot of its record, and slot 0 is `nil`. `RbTree` is a class
whose `root` field and store the methods update in place, statement by
statement, in the C write order (`nil->parent` included). A ghost field
`tree: Tree` is the value those records spell out, and `Linked` ties the two
together. The methods that make one structural step give the new `tree`
exactly, as a function of the old one:

- `RotateAt` for a rotation;
- `RecolorAt` and `Exchange` for colour writes (`RbNodes.Paint` is the shared
  `node->color = c` write);
- `Hang` for the insert descent and link;
- `Unlink`, `RelabelAt` and `EraseByNodeMove` for the cut, key-copy and
  node-move steps of the erases.

The fixups, `Insert` and `Erase` are specified by what they keep and
restore, not by the shape they produce. They state:

- the in-order key sequence (unchanged by a fixup, `InsertSorted` for an
  insert, one index removed for an erase);
- the set of node identities;
- the red-black invariants;
- the key of every record, and that no record outside the tree changes.

Lemmas in `RbSpec`, `RbPaths`, `RbInvariants`, `RbFixup` and `RbOps` prove
what those functions do to the in-order key sequence, to the node identities
and to the red-black invariants (`IsRB`: black root, no RED node with a RED
child, equal black height on every path). Loops carry invariants, and
recursive fixups carry termination measures.

Modules:

- `RbSpec` (`rb_spec.dfy`): the tree value, order, colour invariants and rotations.
- `RbPaths` (`rb_paths.dfy`): positions as paths of directions, `Sub` and `Replace`.
- `RbInvariants` (`rb_invariants.dfy`): invariants that hold except at one position.
- `RbFixup` (`rb_fixup.dfy`): each insert-fixup and erase-fixup case, in both implementations' orders.
- `RbOps` (`rb_ops.dfy`): the insert path, min and max paths, and both erase styles.
- `RbNodes` (`rbtree_h.dfy`): records, the `RbTree` class and store-level lemmas.
- `SrcRbtree` (`src_rbtree.dfy`), `PracticeRbtree` (`practice_rbtree.dfy`) and `DeleteNode1` (`delete_node_1.dfy`): the three C files.

## Model

| member | source | states |
|---|---|---|
| RbNodes.RbTree.constructor | src/rbtree.c:6-17 | `new_rbtree`: an empty valid tree whose root is the sentinel, a single BLACK record |
| RbNodes.Paint | practice/rbtree.c:90-92 | `node->color = c`, the colour write both implementations use throughout (here the case 1 recolouring): the tree is recoloured at that node, and no other field of any record changes |
| RbSpec.ColorCode | src/rbtree.h:7 | `color_t` values: RED is 0, BLACK is 1, so a colour read as a truth value is "is BLACK" |
| RbSpec.OrderedIffSorted | src/rbtree.c:62-82 | the search order the descents rely on holds exactly when the in-order key sequence is non-decreasing |
| RbSpec.RotL | src/rbtree.c:162-187 | a left rotation keeps the in-order keys and the node set; the lifted child takes the top, and the colours move with their nodes |
| RbSpec.RotR | src/rbtree.c:189-214 | a right rotation keeps the in-order keys and the node set, mirror image of `RotL` |
| RbSpec.Rot | practice/rbtree.c:137-179 | a rotation on either side keeps the in-order keys, the node set and distinctness |
| RbOps.UpperBound | src/rbtree.c:62-82 | the number of leading keys `<= k`: every key before it is `<= k`, and the key at it is larger |
| RbOps.InsertSortedSorted | src/rbtree.c:46-94 | inserting a key into a sorted sequence after its equals keeps the sequence sorted |
| RbOps.InsertPath | src/rbtree.c:57-83 | the descent of `rbtree_insert` (smaller keys go left, equal and larger right) ends at a sentinel position |
| RbOps.HangInOrder | src/rbtree.c:85-90 | hanging the new node where the descent ends inserts its key into the in-order sequence after its equals |
| RbOps.HangFixInv | src/rbtree.c:85-92 | the freshly hung RED node is the only possible defect, the state the insert fixup starts from; a fresh slot keeps nodes distinct |
| RbOps.SearchStep | src/rbtree.c:216-228 | in a search tree a key smaller than the node's is present iff it is in the left subtree, a larger one iff in the right |
| RbOps.MinPath | src/rbtree.c:230-238 | the leftmost descent ends at a node whose left child is the sentinel |
| RbOps.MaxPath | src/rbtree.c:240-248 | the rightmost descent ends at a node whose right child is the sentinel |
| RbOps.MinPathFirst | src/rbtree.c:384-389 | the leftmost node holds the first in-order key, and in a search tree no key is smaller |
| RbOps.MaxPathLast | src/rbtree.c:240-248 | the rightmost node holds the last in-order key, and in a search tree no key is larger |
| RbOps.SuccessorIndex | src/rbtree.c:257-261 | the leftmost node of the right subtree is the next node in in-order |
| RbOps.UnlinkInOrder | src/rbtree.c:282-294 | cutting out a node with at most one child removes exactly its key from the in-order sequence |
| RbOps.EraseInOrder | src/rbtree.c:250-302 | both erase styles remove exactly the erased node's in-order entry, and that entry is its key |
| RbOps.EraseKeyCopySpec | src/rbtree.c:250-302 | the key-copy erase removes the erased key's in-order entry, stays sorted and distinct, loses the identity of the node cut out, and leaves the exact state each fixup branch repairs |
| RbOps.EraseNodeMoveSpec | practice/rbtree.c:221-265 | the node-move erase removes the erased key's in-order entry, stays sorted and distinct, loses exactly the erased node's identity, and leaves the exact state each fixup branch repairs |
| RbOps.EraseIds | practice/rbtree.c:241-255 | the key-copy erase loses the node cut out, the node-move erase loses the erased node, and all nodes stay distinct |
| RbOps.UnlinkRed | src/rbtree.c:297-299 | cutting out a RED node leaves a valid tree of the same black height, so no fixup is needed |
| RbOps.UnlinkBlack | src/rbtree.c:297-299 | cutting out a BLACK non-root node leaves its replacement one BLACK short, the state the erase fixup repairs |
| RbOps.UnlinkRoot | src/rbtree.c:274-279 | cutting out the root and painting the new root BLACK leaves a valid tree |
| RbOps.RelabelInOrder | src/rbtree.c:261 | overwriting a node's key changes only that key's entry in the in-order sequence |
| RbFixup.InsertFixRoot | src/rbtree.c:98-101 | when the node is the root, painting it BLACK makes the tree valid |
| RbFixup.InsertFixBlackParent | src/rbtree.c:106-108 | when the parent is BLACK, the tree is already valid |
| RbFixup.InsertFixRecolor | src/rbtree.c:122-127 | case 1, RED uncle: repainting parent, uncle and grandparent moves the only defect up to the grandparent |
| RbFixup.InsertFixLineSrc | src/rbtree.c:132-136 | case 3 in src's order (rotate at the grandparent, paint the parent BLACK and the old grandparent RED) leaves a valid tree |
| RbFixup.InsertFixTriangleSrc | src/rbtree.c:137-143 | case 2 then 3 in src's order (two rotations of the node, paint it BLACK and the old grandparent RED) leaves a valid tree |
| RbFixup.InsertFixTrianglePractice | practice/rbtree.c:99-103 | practice's case 2 rotation turns the triangle into a line one step below, with the same single defect |
| RbFixup.InsertFixLinePractice | practice/rbtree.c:106-108 | practice's case 3 leaves a valid tree with a BLACK top at the grandparent's position |
| RbFixup.EraseFixRed | src/rbtree.c:309-312 | a RED node that is missing a BLACK, painted BLACK, makes the tree valid |
| RbFixup.EraseFixRoot | practice/rbtree.c:348 | when the node missing a BLACK is the root, painting it BLACK makes the tree valid |
| RbFixup.EraseFixPushUp | src/rbtree.c:369-375 | case 2: painting the sibling RED moves the missing BLACK up to the parent, which keeps its colour, and the measure decreases |
| RbFixup.EraseFixRotateRedSrc | src/rbtree.c:321-330 | case 1 in src's order (rotate the RED sibling up and exchange colours) gives a BLACK sibling under a RED parent, same deficit one level down |
| RbFixup.EraseFixRotateRedPractice | practice/rbtree.c:276-283 | case 1 in practice's order (paint, then rotate at the parent) gives the same state |
| RbFixup.EraseFixNearRedSrc | src/rbtree.c:337-342 | case 3 in src's order (rotate the RED near nephew up and exchange colours) keeps the deficit and makes the far nephew RED |
| RbFixup.EraseFixNearRedPractice | practice/rbtree.c:296-303 | case 3 in practice's order leads to the case 4 state with the deficient node untouched |
| RbFixup.EraseFixFarRedSrc | src/rbtree.c:345-350 | case 4 in src's order (rotate the sibling up, exchange colours, far nephew BLACK) leaves a valid tree |
| RbFixup.EraseFixFarRedPractice | practice/rbtree.c:308-314 | case 4 in practice's order (sibling takes the parent's colour, parent and far nephew BLACK, rotate) leaves a valid tree |
| SrcRbtree.RotateL | src/rbtree.c:162-187 | `rotate_L(node)`: the tree becomes `RotateAt` the parent of `node`; `root` moves to `node` exactly when the parent was the root; only tree slots and `nil` are written |
| SrcRbtree.RotateR | src/rbtree.c:189-214 | `rotate_R(node)`: the mirror image of `RotateL`, with src's last two writes in their order |
| SrcRbtree.RotWritesAt | src/rbtree.c:180-186 | slot by slot, the records a rotation writes: lifted node, lowered parent, moved subtree top, grandparent link; nothing else |
| SrcRbtree.ExchangeColor | src/rbtree.c:378-382 | the two nodes swap colours, and every node stays where it was |
| SrcRbtree.Insert | src/rbtree.c:46-94 | the tree stays a valid red-black search tree; its keys become the old keys with `key` inserted after its equals; the node is a fresh slot holding `key`; other records keep their keys |
| SrcRbtree.InsertDescend | src/rbtree.c:57-83 | the loop stops at the node whose sentinel child the new node takes, links it there, and returns `nil` for an empty tree |
| SrcRbtree.InsertFixup | src/rbtree.c:96-160 | from the single-defect state the tree becomes valid, with keys and nodes unchanged |
| SrcRbtree.InsertRedParent | src/rbtree.c:110-159 | with a RED parent, recolouring or restructuring makes the tree valid, keys and nodes unchanged |
| SrcRbtree.InsertRecolor | src/rbtree.c:122-125 | parent and uncle become BLACK and the grandparent RED, nothing else changes |
| SrcRbtree.InsertRestructure | src/rbtree.c:131-159 | with a BLACK uncle, the line or triangle rotations make the tree valid, keys and nodes unchanged |
| SrcRbtree.InsertLine | src/rbtree.c:132-136 | case 3, left side shown (the right side at lines 153-157 mirrors it): the tree becomes valid, keys and nodes unchanged |
| SrcRbtree.InsertTriangle | src/rbtree.c:137-143 | case 2, left side shown (the right side at lines 147-152 mirrors it): the tree becomes valid, keys and nodes unchanged |
| SrcRbtree.PaintLine | src/rbtree.c:134-135 | the lifted node becomes BLACK and its child on the given side RED |
| SrcRbtree.Find | src/rbtree.c:216-228 | returns a node exactly when `key` is in the tree, and that node holds `key`; otherwise `NULL` |
| SrcRbtree.Min | src/rbtree.c:230-238 | the leftmost node, holding the first in-order key, no larger than any key |
| SrcRbtree.Max | src/rbtree.c:240-248 | the rightmost node, holding the last in-order key, no smaller than any key |
| SrcRbtree.SuccessorFind | src/rbtree.c:384-389 | the leftmost node of the given subtree, holding that subtree's smallest key |
| SrcRbtree.Erase | src/rbtree.c:250-302 | returns 0; the tree stays a valid red-black search tree; the erased node's in-order entry is removed; exactly the node cut out leaves the tree; `check_node` now holds its successor's key when it had two children; every other record keeps its key |
| SrcRbtree.ChooseSuccessor | src/rbtree.c:257-269 | with two children `check_node` takes its successor's key and the successor is cut out; otherwise `check_node` itself is; the replacement is the right child unless that is `nil`; only `check_node`'s record changes |
| SrcRbtree.EraseAt | src/rbtree.c:271-299 | cutting out the chosen node and fixing up when it was BLACK leaves a valid tree equal in keys and nodes to the tree with that node unlinked |
| SrcRbtree.EraseRootCut | src/rbtree.c:274-279 | when the node cut out is the root, its replacement (possibly `nil`) becomes the root, painted BLACK |
| SrcRbtree.EraseCut | src/rbtree.c:282-294 | the parent's link on the right side now names the replacement, whose `parent` is set; it reports whether the node cut out was BLACK and a left child |
| SrcRbtree.EraseFixup | src/rbtree.c:304-376 | from a tree missing one BLACK below `parent_node` on side `is_node_left`, the tree becomes valid, keys and nodes unchanged |
| SrcRbtree.EraseRedSibling | src/rbtree.c:321-330 | case 1 and the recursion after it make the tree valid, keys and nodes unchanged |
| SrcRbtree.EraseFixBlackSibling | src/rbtree.c:333-375 | with a BLACK sibling, cases 3, 4 and 2 in src's order make the tree valid, keys and nodes unchanged |
| SrcRbtree.ErasePushUp | src/rbtree.c:369-375 | case 2 and the recursion at the parent (none at the root) make the tree valid, keys and nodes unchanged |
| SrcRbtree.EraseNearRedStep | src/rbtree.c:337-342 | case 3 and the recursion after it make the tree valid, keys and nodes unchanged |
| SrcRbtree.LiftSibling | src/rbtree.c:322-327 | the sibling is rotated above the parent and the two exchange colours |
| SrcRbtree.EraseNearRed | src/rbtree.c:338-339 | the near nephew is rotated above the sibling and the two exchange colours |
| SrcRbtree.EraseFarRed | src/rbtree.c:345-349 | the sibling is rotated above the parent, the two exchange colours, and the far nephew is painted BLACK |
| SrcRbtree.ToArray | src/rbtree.c:391-397 | returns 0 and writes the in-order keys, sorted, to the front of `arr`, leaving the rest untouched |
| SrcRbtree.InOrderWalk | src/rbtree.c:399-408 | writes exactly the subtree's in-order keys from `idx` on and returns the index past them |
| PracticeRbtree.NewRbtree | practice/rbtree.c:4-16 | an empty valid tree whose root and sentinel are the same BLACK record with `nil` parent |
| PracticeRbtree.LeftRotate | practice/rbtree.c:137-157 | the tree becomes `RotateAt` the pivot; `root` moves to the lifted child exactly when the pivot was the root; `nil`'s record is never written |
| PracticeRbtree.RightRotate | practice/rbtree.c:159-179 | the mirror image of `LeftRotate` |
| PracticeRbtree.PivotRecords | practice/rbtree.c:137-157 | the writes of a pivot rotation are exactly the records of the rotated tree and touch no slot outside it |
| PracticeRbtree.Transplant | practice/rbtree.c:351-362 | `empty`'s parent (or `root`) now names `replace`, and `replace->parent` is written even when `replace` is `nil` |
| PracticeRbtree.TransplantCut | practice/rbtree.c:351-362 | on a non-root node with at most one child, the transplant's writes are those of cutting it out |
| PracticeRbtree.TransplantRoot | practice/rbtree.c:351-362 | on the root, the transplant leaves the replacement as a well-linked tree missing exactly the old root |
| PracticeRbtree.Insert | practice/rbtree.c:41-79 | the tree stays a valid red-black search tree; its keys become the old keys with `key` inserted after its equals; the node is a fresh slot holding `key` |
| PracticeRbtree.Descend | practice/rbtree.c:52-59 | the trailing pointer `p` ends at the node whose sentinel child the key's descent reaches, or `nil` for an empty tree |
| PracticeRbtree.Attach | practice/rbtree.c:61-73 | the new RED node hangs under `p` on the side its key picks, or becomes the root; the only defect is at the new node |
| PracticeRbtree.HookReady | practice/rbtree.c:61-73 | hanging the node where the descent ended links the store to the tree with the node hung, and changes nothing outside |
| PracticeRbtree.InsertFixup | practice/rbtree.c:81-135 | the loop makes the tree valid and paints the root BLACK, keys and nodes unchanged |
| PracticeRbtree.InsertFixStep | practice/rbtree.c:85-131 | one pass of the loop moves the single defect strictly up, keys and nodes unchanged |
| PracticeRbtree.InsertRecolor | practice/rbtree.c:88-95 | parent and uncle become BLACK and the grandparent RED, nothing else changes |
| PracticeRbtree.InsertRestructure | practice/rbtree.c:97-109 | case 2 when it applies, then case 3, move the defect strictly up, keys and nodes unchanged |
| PracticeRbtree.InsertTriangle | practice/rbtree.c:99-103 | the rotation at the parent leaves the parent as the node to fix, on a line, same single defect |
| PracticeRbtree.InsertLine | practice/rbtree.c:106-108 | the parent is painted BLACK, the grandparent RED, and rotated; the defect moves one level up |
| PracticeRbtree.EraseFixup | practice/rbtree.c:267-349 | from a tree missing one BLACK at `node`, the loop and the final BLACK paint make the tree valid, keys and nodes unchanged |
| PracticeRbtree.EraseFixStep | practice/rbtree.c:272-346 | one pass of the loop keeps the fixup state and decreases its measure |
| PracticeRbtree.Blacken | practice/rbtree.c:348 | `node` is painted BLACK (`nil` already is) |
| PracticeRbtree.EraseRedSibling | practice/rbtree.c:276-283 | case 1 leaves the same deficient node under a RED parent with a BLACK sibling, re-read from the parent's record |
| PracticeRbtree.EraseBlackSibling | practice/rbtree.c:288-315 | with a BLACK sibling, case 2 moves the deficit up or cases 3 and 4 end the loop at the root |
| PracticeRbtree.ErasePushUp | practice/rbtree.c:288-293 | the sibling turns RED and the parent becomes the node to fix, with its colour unchanged |
| PracticeRbtree.EraseNearFar | practice/rbtree.c:294-315 | cases 3 and 4 make the tree valid and set `node` to the root |
| PracticeRbtree.EraseNearRed | practice/rbtree.c:296-303 | case 3 leads to the case 4 state, with the sibling re-read from the parent's record |
| PracticeRbtree.EraseFarRed | practice/rbtree.c:308-314 | case 4 makes the tree valid, keys and nodes unchanged |
| PracticeRbtree.Erase | practice/rbtree.c:221-265 | returns 0; the tree stays a valid red-black search tree; `origin`'s in-order entry is removed; exactly `origin` leaves the tree; every record keeps its key |
| PracticeRbtree.EraseCutOut | practice/rbtree.c:232-239 | a node with at most one child is replaced by that child (or `nil`), whose `parent` names the node above |
| PracticeRbtree.EraseMove | practice/rbtree.c:241-255 | the successor is cut out and moved into `origin`'s place with `origin`'s colour and children; the erased colour is the successor's |
| PracticeRbtree.MoveInto | practice/rbtree.c:249-254 | the node `y` takes the place of the node at `zp`, keeping its own key, and the records spell out that tree |
| PracticeRbtree.AdoptChildren | practice/rbtree.c:250-254 | the successor takes `origin`'s children and colour, the children's `parent`s (`nil`'s included) name it |
| PracticeRbtree.MoveWritesAt | practice/rbtree.c:249-254 | slot by slot, the records the move writes: parent link, successor, both children's `parent`, and nothing else |
| PracticeRbtree.Find | practice/rbtree.c:181-194 | returns a node exactly when `key` is in the tree, and that node holds `key`; otherwise `NULL` |
| PracticeRbtree.Min | practice/rbtree.c:196-203 | the leftmost node, holding the first in-order key, no larger than any key |
| PracticeRbtree.Successor | practice/rbtree.c:205-210 | the leftmost node of the given subtree, holding its first in-order key, the smallest in a search tree |
| PracticeRbtree.Max | practice/rbtree.c:212-219 | the rightmost node, holding the last in-order key, no smaller than any key |
| PracticeRbtree.ToArray | practice/rbtree.c:364-373 | returns -1 on an empty tree and writes nothing; otherwise returns 0 and writes the sorted in-order keys to the front of `arr` |
| PracticeRbtree.InOrderWalk | practice/rbtree.c:375-385 | writes exactly the subtree's in-order keys from `idx` on and returns the index past them |
| DeleteNode1.GetNextNode | practice/delete_node_1.c:14 | the leftmost node of `delete`'s right subtree, holding that subtree's smallest key |
| DeleteNode1.ChooseRemove | practice/delete_node_1.c:12-23 | with two children `delete` takes its successor's key and the successor is removed; otherwise `delete` itself is; only `delete`'s record changes |
| DeleteNode1.Erase | practice/delete_node_1.c:4-55 | returns 0; the tree stays a valid red-black search tree; the erased node's in-order entry is removed; `delete` holds its successor's key when it had two children; every other record keeps its key |

## Left out

- RbSpec.Ordered: the search order is non-strict (left keys `<=` the node's key `<=` right keys), not "strictly smaller keys go left". Neither implementation keeps the strict form: in src, inserting 5, 5, 5 lets `rotate_L` lift the second 5 above the first, which leaves an equal key in the left subtree. Only the descent (`InsertPath`) routes equal keys right.
- RbNodes.Linked: the `parent` link of the top node is left unconstrained. src/rbtree.c:274-279 and practice/delete_node_1.c:28-34 never reset it when the root is erased. `PracticeRbtree.Rooted` adds "the root's parent is `nil`", which practice needs in order to find its root.
- SrcRbtree.ErasePushUp: src/rbtree.c:371 reads `parent_node->parent->left` before it tests whether `parent_node` is the root. After a root erase that pointer can name a freed node, which is undefined behaviour in C. The model reads the record only when the slot exists (`grandParentNode < |t.nodes|`). Otherwise it takes the answer as "not left", and the answer is never used, because the root test then stops the recursion.
- SrcRbtree.Min, SrcRbtree.Max, SrcRbtree.ToArray, PracticeRbtree.Min, PracticeRbtree.Max: these require a non-empty tree. On an empty tree the C code follows `nil`'s child links, which are `NULL` from `calloc`, and dereferences them. The sentinel's links are not modelled as `NULL`.
- SrcRbtree.ToArray, PracticeRbtree.ToArray: these require `arr` to hold at least as many keys as the tree. The C code ignores `n` and writes past a short array; the model ignores `n` too.
- RbSpec.Key: `key_t` is `int`, modelled as a 32-bit integer newtype. Keys are only compared, never computed on, so no overflow arises.
- RbNodes.RbTree: the store is one sequence of records, not a heap of separately allocated structs. `calloc` appends a slot, and `free` only takes the node out of the tree's identities; the freed record stays in the store and its slot is never reused. Reads of freed memory are not modelled.
- DeleteNode1.GetNextNode: `get_next_node` and the `(parent, is_left)` `rbtree_erase_fixup` are called by practice/delete_node_1.c but not defined there. `GetNextNode` is specified as the comment at line 14 describes it: the smallest node of the right subtree, which is the leftmost. The fixup is src's, whose signature it shares, so lines 24-54 run as `SrcRbtree.EraseAt`.
- `delete_rbtree`, `tree_delete_traverse` (src/rbtree.c:20-44) and `delete_node` (practice/rbtree.c:18-39) only release memory. The model has no deallocation, so they are not modelled.
- The `rbtree` struct's own allocation and the `t->nil` field are not modelled separately: `nil` is always slot 0.
