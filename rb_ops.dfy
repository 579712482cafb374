// What insert, search and erase do to the tree as a value: where a new key
// is hung, which node is the leftmost or rightmost, which node an erase
// unlinks and what the tree looks like afterwards.  The pointer code of both
// implementations is proved against these functions.

module RbOps {
  import opened RbSpec
  import opened RbPaths
  import opened RbInvariants
  import opened RbFixup

  // ---------------------------------------------------------------------
  // Sorted sequences
  // ---------------------------------------------------------------------

  /** The number of leading keys `<= k`: the slot a sorted sequence offers
      `k` when equal keys go after their equals. */
  function UpperBound(s: seq<Key>, k: Key): (i: nat)
    ensures i <= |s|
    ensures forall j | 0 <= j < i :: s[j] <= k
    ensures i < |s| ==> k < s[i]
  {
    if s == [] || k < s[0] then 0
    else
      var i := 1 + UpperBound(s[1..], k);
      assert forall j | 1 <= j < i :: s[j] == s[1..][j - 1];
      i
  }

  /** `s` with `k` inserted after every key `<= k`. */
  function InsertSorted(s: seq<Key>, k: Key): seq<Key> {
    s[..UpperBound(s, k)] + [k] + s[UpperBound(s, k)..]
  }

  /** Inserting adds exactly one copy of `k` and keeps a sorted sequence
      sorted, with `k` after its equals and before every larger key. */
  lemma InsertSortedFacts(s: seq<Key>, k: Key)
    ensures multiset(InsertSorted(s, k)) == multiset(s) + multiset{k}
    ensures |InsertSorted(s, k)| == |s| + 1
    ensures Sorted(s) ==> Sorted(InsertSorted(s, k))
    ensures Sorted(s) ==> forall j | UpperBound(s, k) <= j < |s| :: k < s[j]
  {
    var i := UpperBound(s, k);
    assert s == s[..i] + s[i..];
    if Sorted(s) {
      InsertSortedSorted(s, k);
    }
  }

  lemma InsertSortedSorted(s: seq<Key>, k: Key)
    requires Sorted(s)
    ensures Sorted(InsertSorted(s, k))
  {
    var i := UpperBound(s, k);
    var a := s[..i];
    var b := s[i..];
    assert forall x | x in a :: x <= k;
    assert forall x | x in b :: k <= x by {
      forall x | x in b ensures k <= x {
        var j :| 0 <= j < |b| && b[j] == x;
        assert s[i] <= s[i + j];
      }
    }
    SortedConcatJoin(a, k, b);
  }

  /** Removing one position keeps a sorted sequence sorted. */
  lemma SortedRemove(s: seq<Key>, i: nat)
    requires Sorted(s) && i < |s|
    ensures Sorted(s[..i] + s[i + 1..])
  {
    var r := s[..i] + s[i + 1..];
    forall a, b | 0 <= a < b < |r| ensures r[a] <= r[b] {
      var a' := if a < i then a else a + 1;
      var b' := if b < i then b else b + 1;
      assert r[a] == s[a'] && r[b] == s[b'];
    }
  }

  lemma {:induction false} UpperBoundLeft(a: seq<Key>, nk: Key, b: seq<Key>, k: Key)
    requires k < nk
    ensures UpperBound(a + [nk] + b, k) == UpperBound(a, k)
    decreases |a|
  {
    if a == [] {
      assert a + [nk] + b == [nk] + b;
    } else if a[0] <= k {
      assert (a + [nk] + b)[0] == a[0];
      assert (a + [nk] + b)[1..] == a[1..] + [nk] + b;
      UpperBoundLeft(a[1..], nk, b, k);
    } else {
      assert (a + [nk] + b)[0] == a[0];
    }
  }

  lemma {:induction false} UpperBoundRight(a: seq<Key>, nk: Key, b: seq<Key>, k: Key)
    requires nk <= k && forall x | x in a :: x <= k
    ensures UpperBound(a + [nk] + b, k) == |a| + 1 + UpperBound(b, k)
    decreases |a|
  {
    if a == [] {
      assert a + [nk] + b == [nk] + b;
      assert ([nk] + b)[1..] == b;
    } else {
      assert a[0] in a;
      assert forall x | x in a[1..] :: x in a;
      assert (a + [nk] + b)[0] == a[0];
      assert (a + [nk] + b)[1..] == a[1..] + [nk] + b;
      UpperBoundRight(a[1..], nk, b, k);
    }
  }

  lemma InsertSortedLeft(a: seq<Key>, nk: Key, b: seq<Key>, k: Key)
    requires k < nk
    ensures InsertSorted(a + [nk] + b, k) == InsertSorted(a, k) + [nk] + b
  {
    UpperBoundLeft(a, nk, b, k);
    var i := UpperBound(a, k);
    assert (a + [nk] + b)[..i] == a[..i];
    assert (a + [nk] + b)[i..] == a[i..] + [nk] + b;
  }

  lemma InsertSortedRight(a: seq<Key>, nk: Key, b: seq<Key>, k: Key)
    requires nk <= k && forall x | x in a :: x <= k
    ensures InsertSorted(a + [nk] + b, k) == a + [nk] + InsertSorted(b, k)
  {
    UpperBoundRight(a, nk, b, k);
    var j := UpperBound(b, k);
    assert (a + [nk] + b)[..|a| + 1 + j] == a + [nk] + b[..j];
    assert (a + [nk] + b)[|a| + 1 + j..] == b[j..];
  }

  lemma SeqCut(u: seq<Key>, x: Key, v: seq<Key>, y: Key)
    ensures var s := u + [x] + v;
            && |u| < |s| && s[|u|] == x
            && s[..|u|] + s[|u| + 1..] == u + v
            && s[|u| := y] == u + [y] + v
  {
    var s := u + [x] + v;
    assert s[..|u|] == u;
    assert s[|u| + 1..] == v;
    assert s[|u| := y] == u + [y] + v;
  }

  /** Cutting out, or overwriting, the key `x` that sits between `l` and `r`
      in `b + (l + [x] + r) + a`. */
  lemma SeqMiddle(b: seq<Key>, l: seq<Key>, x: Key, r: seq<Key>, a: seq<Key>, y: Key)
    ensures var s := b + (l + [x] + r) + a; var i := |b| + |l|;
            && i < |s| && s[i] == x
            && s[..i] + s[i + 1..] == b + (l + r) + a
            && s[i := y] == b + (l + [y] + r) + a
  {
    var u := b + l;
    var v := r + a;
    assert b + (l + [x] + r) + a == u + [x] + v;
    assert b + (l + [y] + r) + a == u + [y] + v;
    assert b + (l + r) + a == u + v;
    SeqCut(u, x, v, y);
  }

  // ---------------------------------------------------------------------
  // Insert
  // ---------------------------------------------------------------------

  /** Where the descent of `rbtree_insert` ends: left when the key is
      strictly smaller than the node's, right otherwise, down to the
      sentinel. */
  function InsertPath(t: Tree, k: Key): (p: seq<Dir>)
    ensures ValidPath(t, p) && Sub(t, p).Leaf?
  {
    match t
    case Leaf => []
    case Node(_, l, nk, r, _) =>
      var d := if k < nk then L else R;
      var q := InsertPath(Child(t, d), k);
      assert ([d] + q)[0] == d && ([d] + q)[1..] == q;
      [d] + q
  }

  /** The tree once `rbtree_insert` has hung a RED node `id` holding `k`
      where the descent ended, before any fixup. */
  function Hang(t: Tree, k: Key, id: nat): Tree {
    Replace(t, InsertPath(t, k), Node(Red, Leaf, k, Leaf, id))
  }

  /** One step of the descent of `rbtree_insert` from the position `cp`
      on it: the side it takes, and where it ends when that side is the
      sentinel. */
  lemma {:induction false} InsertPathStep(t: Tree, cp: seq<Dir>, k: Key)
    requires ValidPath(t, cp) && Sub(t, cp).Node?
    ensures var n := Sub(t, cp); var d := if k < n.k then L else R;
            && ValidPath(t, cp + [d]) && Sub(t, cp + [d]) == Child(n, d)
            && cp + InsertPath(n, k) == (cp + [d]) + InsertPath(Child(n, d), k)
            && |InsertPath(Child(n, d), k)| < |InsertPath(n, k)|
            && (Child(n, d).Leaf? ==> cp + InsertPath(n, k) == cp + [d])
  {
    var n := Sub(t, cp);
    var d := if k < n.k then L else R;
    SubAppend(t, cp, d);
    var q := InsertPath(Child(n, d), k);
    assert InsertPath(n, k) == [d] + q;
    assert cp + ([d] + q) == (cp + [d]) + q;
  }

  /** Hanging a key into a search tree inserts it into the in-order
      sequence after its equals. */
  lemma {:induction false} HangInOrder(t: Tree, k: Key, id: nat)
    requires Ordered(t)
    ensures InOrder(Hang(t, k, id)) == InsertSorted(InOrder(t), k)
  {
    match t
    case Leaf =>
    case Node(c, l, nk, r, nid) =>
      var d := if k < nk then L else R;
      var q := InsertPath(Child(t, d), k);
      assert InsertPath(t, k) == [d] + q;
      assert ([d] + q)[0] == d && ([d] + q)[1..] == q;
      var a := InOrder(l);
      var b := InOrder(r);
      assert InOrder(t) == a + [nk] + b;
      if k < nk {
        HangInOrder(l, k, id);
        InsertSortedLeft(a, nk, b, k);
      } else {
        HangInOrder(r, k, id);
        InsertSortedRight(a, nk, b, k);
      }
  }

  /** The freshly hung RED node is the only possible defect: the fixup's
      starting state.  A fresh id keeps every node distinct. */
  lemma HangFixInv(t: Tree, k: Key, id: nat)
    requires IsRB(t)
    ensures InsertFixInv(Hang(t, k, id), InsertPath(t, k))
    ensures Distinct(t) && id != 0 && id !in Ids(t) ==>
              Distinct(Hang(t, k, id)) && Ids(Hang(t, k, id)) == Ids(t) + {id}
  {
    var p := InsertPath(t, k);
    var u := Node(Red, Leaf, k, Leaf, id);
    RedOkSplit(t, p);
    BalancedSplit(t, p, BH(t));
    ReplaceAt(t, p, u);
    AboveOkReplace(t, p, u);
    BalancedAboveReplace(t, p, u, BH(t));
    BalancedSplit(Hang(t, k, id), p, BH(t));
    if p != [] {
      ReplaceKeepsRoot(t, p, u);
    }
    if Distinct(t) && id != 0 && id !in Ids(t) {
      IdsReplace(t, p, u);
    }
  }

  // ---------------------------------------------------------------------
  // Search
  // ---------------------------------------------------------------------

  /** One step of the descent of `rbtree_find`: in a search tree a key
      smaller than the node's can only be on the left, a larger one only on
      the right. */
  lemma SearchStep(t: Tree, k: Key)
    requires t.Node? && Ordered(t)
    ensures k < t.k ==> (k in InOrder(t) <==> k in InOrder(t.l))
    ensures t.k < k ==> (k in InOrder(t) <==> k in InOrder(t.r))
  {
    assert InOrder(t) == InOrder(t.l) + [t.k] + InOrder(t.r);
  }

  /** Every subtree of a search tree is a search tree. */
  lemma {:induction false} OrderedSub(t: Tree, p: seq<Dir>)
    requires Ordered(t)
    ensures Ordered(Sub(t, p))
    decreases p
  {
    if p != [] && t.Node? {
      OrderedSub(Child(t, p[0]), p[1..]);
    }
  }

  /** The path of `rbtree_min`: left until the left child is the sentinel. */
  function MinPath(t: Tree): (p: seq<Dir>)
    requires t.Node?
    ensures ValidPath(t, p) && Sub(t, p).Node? && Sub(t, p).l.Leaf?
    decreases t
  {
    if t.l.Leaf? then []
    else
      var q := MinPath(t.l);
      assert ([L] + q)[0] == L && ([L] + q)[1..] == q;
      [L] + q
  }

  /** The path of `rbtree_max`: right until the right child is the sentinel. */
  function MaxPath(t: Tree): (p: seq<Dir>)
    requires t.Node?
    ensures ValidPath(t, p) && Sub(t, p).Node? && Sub(t, p).r.Leaf?
    decreases t
  {
    if t.r.Leaf? then []
    else
      var q := MaxPath(t.r);
      assert ([R] + q)[0] == R && ([R] + q)[1..] == q;
      [R] + q
  }

  /** The leftmost node holds the first key in in-order, and nothing comes
      before it; in a search tree that key is the smallest. */
  lemma {:induction false} MinPathFirst(t: Tree)
    requires t.Node?
    ensures Before(t, MinPath(t)) == []
    ensures InOrder(t)[0] == Sub(t, MinPath(t)).k
    ensures Ordered(t) ==> forall x | x in InOrder(t) :: Sub(t, MinPath(t)).k <= x
    decreases t
  {
    if t.l.Node? {
      MinPathFirst(t.l);
      var q := MinPath(t.l);
      assert ([L] + q)[0] == L && ([L] + q)[1..] == q;
    }
    assert InOrder(t) == InOrder(t.l) + [t.k] + InOrder(t.r);
    if Ordered(t) {
      OrderedIffSorted(t);
      forall x | x in InOrder(t) ensures InOrder(t)[0] <= x {
        var j :| 0 <= j < |InOrder(t)| && InOrder(t)[j] == x;
      }
    }
  }

  /** The rightmost node holds the last key in in-order; in a search tree
      that key is the largest. */
  lemma {:induction false} MaxPathLast(t: Tree)
    requires t.Node?
    ensures After(t, MaxPath(t)) == []
    ensures InOrder(t)[|InOrder(t)| - 1] == Sub(t, MaxPath(t)).k
    ensures Ordered(t) ==> forall x | x in InOrder(t) :: x <= Sub(t, MaxPath(t)).k
    decreases t
  {
    if t.r.Node? {
      MaxPathLast(t.r);
      var q := MaxPath(t.r);
      assert ([R] + q)[0] == R && ([R] + q)[1..] == q;
    }
    assert InOrder(t) == InOrder(t.l) + [t.k] + InOrder(t.r);
    if Ordered(t) {
      OrderedIffSorted(t);
      forall x | x in InOrder(t) ensures x <= InOrder(t)[|InOrder(t)| - 1] {
        var j :| 0 <= j < |InOrder(t)| && InOrder(t)[j] == x;
      }
    }
  }

  /** One step of the leftmost descent from the position `cp` on it. */
  lemma {:induction false} MinPathStep(t: Tree, cp: seq<Dir>)
    requires ValidPath(t, cp) && Sub(t, cp).Node?
    requires t.Node? && MinPath(t) == cp + MinPath(Sub(t, cp))
    ensures Sub(t, cp).l.Leaf? ==> MinPath(t) == cp
    ensures Sub(t, cp).l.Node? ==>
              && ValidPath(t, cp + [L]) && Sub(t, cp + [L]) == Sub(t, cp).l
              && MinPath(t) == (cp + [L]) + MinPath(Sub(t, cp + [L]))
  {
    var n := Sub(t, cp);
    var q := MinPath(t);
    if n.l.Node? {
      SubAppend(t, cp, L);
      var m := MinPath(n.l);
      assert MinPath(n) == [L] + m;
      assert q == cp + ([L] + m);
      assert cp + ([L] + m) == (cp + [L]) + m;
    } else {
      assert MinPath(n) == [];
      assert q == cp + [];
      assert cp + [] == cp;
    }
  }

  /** One step of the rightmost descent from the position `cp` on it. */
  lemma {:induction false} MaxPathStep(t: Tree, cp: seq<Dir>)
    requires ValidPath(t, cp) && Sub(t, cp).Node?
    requires t.Node? && MaxPath(t) == cp + MaxPath(Sub(t, cp))
    ensures Sub(t, cp).r.Leaf? ==> MaxPath(t) == cp
    ensures Sub(t, cp).r.Node? ==>
              && ValidPath(t, cp + [R]) && Sub(t, cp + [R]) == Sub(t, cp).r
              && MaxPath(t) == (cp + [R]) + MaxPath(Sub(t, cp + [R]))
  {
    var n := Sub(t, cp);
    var q := MaxPath(t);
    if n.r.Node? {
      SubAppend(t, cp, R);
      var m := MaxPath(n.r);
      assert MaxPath(n) == [R] + m;
      assert q == cp + ([R] + m);
      assert cp + ([R] + m) == (cp + [R]) + m;
    } else {
      assert MaxPath(n) == [];
      assert q == cp + [];
      assert cp + [] == cp;
    }
  }

  // ---------------------------------------------------------------------
  // Erase
  // ---------------------------------------------------------------------

  /** What takes the place of a node with at most one child: its right child
      unless that is the sentinel, else its left child (possibly the
      sentinel). */
  function Spliced(n: Tree): Tree
    requires n.Node?
  {
    if n.r.Node? then n.r else n.l
  }

  /** The node at `p` cut out, its only subtree moved up into its place. */
  function Unlink(t: Tree, p: seq<Dir>): Tree {
    if Sub(t, p).Node? then Replace(t, p, Spliced(Sub(t, p))) else t
  }

  /** The node at `p` holding key `k` under identity `id`, colour and
      children kept. */
  function RelabelAt(t: Tree, p: seq<Dir>, k: Key, id: nat): Tree {
    if Sub(t, p).Node? then Replace(t, p, Sub(t, p).(k := k, id := id)) else t
  }

  predicate TwoChildren(n: Tree) {
    n.Node? && n.l.Node? && n.r.Node?
  }

  /** The position of the node an erase of the node at `zp` unlinks: `zp`
      itself when it has at most one child, else its in-order successor, the
      leftmost node of its right subtree. */
  function ErasePos(t: Tree, zp: seq<Dir>): seq<Dir>
    requires Sub(t, zp).Node?
  {
    var z := Sub(t, zp);
    if TwoChildren(z) then zp + [R] + MinPath(z.r) else zp
  }

  /** Erasing the node at `zp` that has two children: it takes its
      successor's key and identity `id`, and the successor is unlinked.
      `src` keeps the erased node's identity (the key is copied); `practice`
      moves the successor node up (its identity replaces the erased one). */
  function EraseTwo(t: Tree, zp: seq<Dir>, id: nat): Tree
    requires TwoChildren(Sub(t, zp))
  {
    var z := Sub(t, zp);
    var y := Sub(z.r, MinPath(z.r));
    Unlink(RelabelAt(t, zp, y.k, id), ErasePos(t, zp))
  }

  /** `rbtree_erase` of `src` and `delete_node_1.c`: the erased node keeps
      its identity and takes its successor's key. */
  function EraseByKeyCopy(t: Tree, zp: seq<Dir>): Tree
    requires Sub(t, zp).Node?
  {
    if TwoChildren(Sub(t, zp)) then EraseTwo(t, zp, Sub(t, zp).id) else Unlink(t, zp)
  }

  /** `rbtree_erase` of `practice`: the successor node itself moves into the
      erased node's place. */
  function EraseByNodeMove(t: Tree, zp: seq<Dir>): Tree
    requires Sub(t, zp).Node?
  {
    var z := Sub(t, zp);
    if TwoChildren(z) then EraseTwo(t, zp, Sub(z.r, MinPath(z.r)).id) else Unlink(t, zp)
  }

  /** The in-order index of the node at `p`. */
  function InIndex(t: Tree, p: seq<Dir>): nat
    requires Sub(t, p).Node?
  {
    |Before(t, p)| + |InOrder(Sub(t, p).l)|
  }

  lemma {:induction false} BeforeConcat(t: Tree, q: seq<Dir>, r: seq<Dir>)
    requires ValidPath(t, q)
    ensures Before(t, q + r) == Before(t, q) + Before(Sub(t, q), r)
    decreases q
  {
    if q == [] {
      assert q + r == r;
    } else {
      assert (q + r)[0] == q[0];
      assert (q + r)[1..] == q[1..] + r;
      BeforeConcat(Child(t, q[0]), q[1..], r);
    }
  }

  /** The node at `p` holds the key at its in-order index. */
  lemma InIndexKey(t: Tree, p: seq<Dir>)
    requires Sub(t, p).Node?
    ensures InIndex(t, p) < |InOrder(t)| && InOrder(t)[InIndex(t, p)] == Sub(t, p).k
  {
    SubNodeValid(t, p);
    InOrderSplit(t, p);
    var n := Sub(t, p);
    assert InOrder(n) == InOrder(n.l) + [n.k] + InOrder(n.r);
    SeqMiddle(Before(t, p), InOrder(n.l), n.k, InOrder(n.r), After(t, p), n.k);
  }

  /** Unlinking a node with at most one child removes exactly its key from
      the in-order sequence. */
  lemma UnlinkInOrder(t: Tree, p: seq<Dir>)
    requires Sub(t, p).Node? && !TwoChildren(Sub(t, p))
    ensures var s := InOrder(t); var i := InIndex(t, p);
            i < |s| && s[i] == Sub(t, p).k && InOrder(Unlink(t, p)) == s[..i] + s[i + 1..]
  {
    SubNodeValid(t, p);
    var n := Sub(t, p);
    var b, l, r, a := Before(t, p), InOrder(n.l), InOrder(n.r), After(t, p);
    InOrderSplit(t, p);
    ReplaceFacts(t, p, Spliced(n));
    var m := if n.r.Node? then r else l;
    assert InOrder(Spliced(n)) == m;
    RemoveMiddle(InOrder(t), InOrder(n), InOrder(Unlink(t, p)), b, l, n.k, r, a, m);
  }

  /** Dropping the middle key of `b + (l + [x] + r) + a` where one of `l`
      and `r` is empty. */
  lemma RemoveMiddle(s: seq<Key>, sn: seq<Key>, u: seq<Key>, b: seq<Key>, l: seq<Key>, x: Key, r: seq<Key>,
                     a: seq<Key>, m: seq<Key>)
    requires s == b + sn + a && sn == l + [x] + r
    requires u == b + m + a && ((l == [] && m == r) || (r == [] && m == l))
    ensures var i := |b| + |l|; i < |s| && s[i] == x && u == s[..i] + s[i + 1..]
  {
    SeqMiddle(b, l, x, r, a, x);
    assert m == l + r;
  }

  /** Relabelling a node changes only its key in the in-order sequence. */
  lemma RelabelInOrder(t: Tree, p: seq<Dir>, k: Key, id: nat)
    requires Sub(t, p).Node?
    ensures var i := InIndex(t, p);
            i < |InOrder(t)| && InOrder(RelabelAt(t, p, k, id)) == InOrder(t)[i := k]
  {
    SubNodeValid(t, p);
    InOrderSplit(t, p);
    var n := Sub(t, p);
    var n' := n.(k := k, id := id);
    ReplaceFacts(t, p, n');
    assert InOrder(n) == InOrder(n.l) + [n.k] + InOrder(n.r);
    assert InOrder(n') == InOrder(n.l) + [k] + InOrder(n.r);
    SeqMiddle(Before(t, p), InOrder(n.l), n.k, InOrder(n.r), After(t, p), k);
  }

  /** The successor is the next node in in-order. */
  lemma SuccessorIndex(t: Tree, zp: seq<Dir>)
    requires TwoChildren(Sub(t, zp))
    ensures ValidPath(t, ErasePos(t, zp)) && Sub(t, ErasePos(t, zp)) == Sub(Sub(t, zp).r, MinPath(Sub(t, zp).r))
    ensures InIndex(t, ErasePos(t, zp)) == InIndex(t, zp) + 1
  {
    var z := Sub(t, zp);
    var mp := MinPath(z.r);
    SubNodeValid(t, zp);
    assert zp + [R] + mp == zp + ([R] + mp);
    SubConcat(t, zp, [R] + mp);
    assert ([R] + mp)[0] == R && ([R] + mp)[1..] == mp;
    BeforeConcat(t, zp, [R] + mp);
    MinPathFirst(z.r);
  }

  /** Both erases remove exactly the erased node's entry from the in-order
      sequence; the erased node held the key at that index. */
  lemma EraseInOrder(t: Tree, zp: seq<Dir>)
    requires Sub(t, zp).Node?
    ensures var s := InOrder(t); var i := InIndex(t, zp);
            && i < |s| && s[i] == Sub(t, zp).k
            && InOrder(EraseByKeyCopy(t, zp)) == s[..i] + s[i + 1..]
            && InOrder(EraseByNodeMove(t, zp)) == s[..i] + s[i + 1..]
  {
    var z := Sub(t, zp);
    InIndexKey(t, zp);
    if TwoChildren(z) {
      EraseTwoInOrder(t, zp, z.id);
      EraseTwoInOrder(t, zp, Sub(z.r, MinPath(z.r)).id);
    } else {
      UnlinkInOrder(t, zp);
    }
  }

  lemma EraseTwoInOrder(t: Tree, zp: seq<Dir>, id: nat)
    requires TwoChildren(Sub(t, zp))
    ensures var s := InOrder(t); var i := InIndex(t, zp);
            i + 1 < |s| && InOrder(EraseTwo(t, zp, id)) == s[..i] + s[i + 1..]
  {
    var z := Sub(t, zp);
    var sp := ErasePos(t, zp);
    var y := Sub(z.r, MinPath(z.r));
    var s := InOrder(t);
    var i := InIndex(t, zp);
    SuccessorIndex(t, zp);
    InIndexKey(t, sp);
    RelabelInOrder(t, zp, y.k, id);
    var t1 := RelabelAt(t, zp, y.k, id);
    RelabelSuccessor(t, zp, y.k, id);
    UnlinkInOrder(t1, sp);
    assert EraseTwo(t, zp, id) == Unlink(t1, sp);
    SeqStepAt(s, InOrder(t1), InOrder(Unlink(t1, sp)), i, y.k);
  }

  /** `SeqStep` with the intermediate sequences named. */
  lemma SeqStepAt(s: seq<Key>, s1: seq<Key>, u: seq<Key>, i: nat, x: Key)
    requires i + 1 < |s| && s[i + 1] == x && s1 == s[i := x] && u == s1[..i + 1] + s1[i + 2..]
    ensures u == s[..i] + s[i + 1..]
  {
    SeqStep(s, i, x);
  }

  /** Relabelling the erased node leaves its successor where it was, at the
      same in-order index. */
  lemma RelabelSuccessor(t: Tree, zp: seq<Dir>, k: Key, id: nat)
    requires TwoChildren(Sub(t, zp))
    ensures var t1 := RelabelAt(t, zp, k, id); var sp := ErasePos(t, zp);
            && ValidPath(t1, sp) && Sub(t1, sp) == Sub(t, sp) && Sub(t, sp).Node?
            && !TwoChildren(Sub(t, sp)) && InIndex(t1, sp) == InIndex(t, sp)
  {
    var z := Sub(t, zp);
    var t1 := RelabelAt(t, zp, k, id);
    var mp := MinPath(z.r);
    SuccessorIndex(t, zp);
    MinPathFirst(z.r);
    RelabelSub(t, zp, k, id, [R] + mp);
    assert zp + [R] + mp == zp + ([R] + mp);
    SubNodeValid(t, zp);
    RelabelContext(t, zp, k, id);
    BeforeConcat(t, zp, [R] + mp);
    BeforeConcat(t1, zp, [R] + mp);
    assert ([R] + mp)[0] == R && ([R] + mp)[1..] == mp;
  }

  /** Overwriting position `i` with the key at `i + 1` and then dropping
      position `i + 1` drops position `i`. */
  lemma SeqStep(s: seq<Key>, i: nat, x: Key)
    requires i + 1 < |s| && s[i + 1] == x
    ensures var s1 := s[i := x]; s1[..i + 1] + s1[i + 2..] == s[..i] + s[i + 1..]
  {
    var s1 := s[i := x];
    assert s1[..i + 1] == s[..i] + [x];
    assert s1[i + 2..] == s[i + 2..];
    assert s[i + 1..] == [x] + s[i + 2..];
  }

  /** Below the relabelled node nothing changes. */
  lemma RelabelSub(t: Tree, p: seq<Dir>, k: Key, id: nat, r: seq<Dir>)
    requires Sub(t, p).Node? && r != []
    ensures ValidPath(RelabelAt(t, p, k, id), p + r) == ValidPath(t, p + r)
    ensures Sub(RelabelAt(t, p, k, id), p + r) == Sub(t, p + r)
  {
    SubNodeValid(t, p);
    var n := Sub(t, p);
    var n' := n.(k := k, id := id);
    ReplaceAt(t, p, n');
    SubConcat(t, p, r);
    SubConcat(RelabelAt(t, p, k, id), p, r);
    assert r == [r[0]] + r[1..];
    assert Sub(n, r) == Sub(n', r) && (ValidPath(n, r) <==> ValidPath(n', r));
  }

  lemma RelabelContext(t: Tree, p: seq<Dir>, k: Key, id: nat)
    requires Sub(t, p).Node?
    ensures ValidPath(RelabelAt(t, p, k, id), p)
    ensures Before(RelabelAt(t, p, k, id), p) == Before(t, p)
    ensures Sub(RelabelAt(t, p, k, id), p) == Sub(t, p).(k := k, id := id)
  {
    SubNodeValid(t, p);
    ReplaceFacts(t, p, Sub(t, p).(k := k, id := id));
  }

  /** Relabelling keeps the colour invariants and the black height. */
  lemma RelabelRB(t: Tree, p: seq<Dir>, k: Key, id: nat)
    requires IsRB(t) && Sub(t, p).Node?
    ensures IsRB(RelabelAt(t, p, k, id)) && BH(RelabelAt(t, p, k, id)) == BH(t)
  {
    SubNodeValid(t, p);
    RedOkSplit(t, p);
    BalancedSplit(t, p, BH(t));
    LiftRB(t, p, Sub(t, p).(k := k, id := id), BH(t));
  }

  /** A RED node with at most one child has none, so unlinking it leaves a
      valid tree. */
  lemma UnlinkRed(t: Tree, p: seq<Dir>)
    requires IsRB(t) && ValidPath(t, p)
    requires Sub(t, p).Node? && !TwoChildren(Sub(t, p)) && Sub(t, p).c == Red
    ensures IsRB(Unlink(t, p)) && BH(Unlink(t, p)) == BH(t)
  {
    var n := Sub(t, p);
    RedOkSplit(t, p);
    BalancedSplit(t, p, BH(t));
    assert n.l.Leaf? && n.r.Leaf?;
    LiftRB(t, p, Leaf, BH(t));
  }

  /** Unlinking a BLACK non-root node with at most one child leaves its
      replacement one BLACK short: the state erase fixup starts from. */
  lemma UnlinkBlack(t: Tree, p: seq<Dir>)
    requires IsRB(t) && ValidPath(t, p) && p != []
    requires Sub(t, p).Node? && !TwoChildren(Sub(t, p)) && Sub(t, p).c == Black
    ensures EraseFixInv(Unlink(t, p), p, BH(t))
  {
    var n := Sub(t, p);
    var u := Spliced(n);
    RedOkSplit(t, p);
    BalancedSplit(t, p, BH(t));
    ReplaceAt(t, p, u);
    AboveOkReplace(t, p, u);
    BalancedAboveReplace(t, p, u, BH(t));
    ReplaceKeepsRoot(t, p, u);
  }

  /** Unlinking the root (it has at most one child) and painting the new
      root BLACK leaves a valid tree. */
  lemma UnlinkRoot(t: Tree)
    requires IsRB(t) && t.Node? && !TwoChildren(t)
    ensures IsRB(RecolorAt(Unlink(t, []), [], Black))
  {
    var u := Spliced(t);
    assert u == t.l || u == t.r;
    assert Balanced(u) && RedOk(u);
    if u.Node? {
      RecolorAtRoot(u, Black);
      assert Balanced(Recolor(u, Black));
    }
  }

  /** The erase of the node at `zp` (either variant, with the successor's
      key and any identity at `zp`) is the unlinking of the node at
      `ErasePos` from a valid tree of the same colours. */
  lemma EraseAsUnlink(t: Tree, zp: seq<Dir>, id: nat)
    requires IsRB(t) && Sub(t, zp).Node?
    ensures var z := Sub(t, zp); var sp := ErasePos(t, zp);
            var t1 := if TwoChildren(z) then RelabelAt(t, zp, Sub(z.r, MinPath(z.r)).k, id) else t;
            && IsRB(t1) && BH(t1) == BH(t) && ValidPath(t1, sp)
            && Sub(t1, sp) == Sub(t, sp) && Sub(t1, sp).Node? && !TwoChildren(Sub(t1, sp))
            && (TwoChildren(z) ==> EraseTwo(t, zp, id) == Unlink(t1, sp))
  {
    var z := Sub(t, zp);
    SubNodeValid(t, zp);
    if TwoChildren(z) {
      var y := Sub(z.r, MinPath(z.r));
      RelabelRB(t, zp, y.k, id);
      SuccessorIndex(t, zp);
      assert zp + [R] + MinPath(z.r) == zp + ([R] + MinPath(z.r));
      RelabelSub(t, zp, y.k, id, [R] + MinPath(z.r));
    }
  }

  /** Erase in value terms, either variant: where the erase starts its fixup
      and what holds there.  A RED unlinked node needs no fixup; a BLACK one
      leaves a deficit at its position; an unlinked root only needs its
      replacement painted BLACK. */
  lemma EraseRB(t: Tree, zp: seq<Dir>, id: nat)
    requires IsRB(t) && Sub(t, zp).Node?
    ensures var z := Sub(t, zp); var sp := ErasePos(t, zp);
            var e := if TwoChildren(z) then EraseTwo(t, zp, id) else Unlink(t, zp);
            && ValidPath(t, sp) && Sub(t, sp).Node?
            && (sp == [] ==> IsRB(RecolorAt(e, [], Black)))
            && (sp != [] && Sub(t, sp).c == Red ==> IsRB(e))
            && (sp != [] && Sub(t, sp).c == Black ==> EraseFixInv(e, sp, BH(t)))
  {
    var z := Sub(t, zp);
    var sp := ErasePos(t, zp);
    EraseAsUnlink(t, zp, id);
    var t1 := if TwoChildren(z) then RelabelAt(t, zp, Sub(z.r, MinPath(z.r)).k, id) else t;
    if TwoChildren(z) {
      SuccessorIndex(t, zp);
    }
    if sp == [] {
      UnlinkRoot(t1);
    } else if Sub(t, sp).c == Red {
      UnlinkRed(t1, sp);
    } else {
      UnlinkBlack(t1, sp);
    }
  }

  /** The key-copy erase in one statement: the erased node's key leaves the
      in-order sequence, which stays sorted; the node cut out leaves the
      tree; and the colour invariants hold again, or hold but for the one
      BLACK the fixup restores, according to where and what was cut. */
  lemma EraseKeyCopySpec(t: Tree, zp: seq<Dir>)
    requires ValidRB(t) && Distinct(t) && Sub(t, zp).Node?
    ensures var e := EraseByKeyCopy(t, zp); var sp := ErasePos(t, zp);
            var s := InOrder(t); var i := InIndex(t, zp);
            && i < |s| && s[i] == Sub(t, zp).k && InOrder(e) == s[..i] + s[i + 1..] && Sorted(InOrder(e))
            && ValidPath(t, sp) && Sub(t, sp).Node?
            && Distinct(e) && Ids(e) == Ids(t) - {IdOf(Sub(t, sp))}
            && (sp == [] ==> zp == [] && e == Spliced(t) && IsRB(RecolorAt(e, [], Black)))
            && (sp != [] && Sub(t, sp).c == Red ==> IsRB(e))
            && (sp != [] && Sub(t, sp).c == Black ==> EraseFixInv(e, sp, BH(t)))
  {
    EraseRB(t, zp, Sub(t, zp).id);
    EraseIds(t, zp);
    EraseInOrder(t, zp);
    OrderedIffSorted(t);
    SortedRemove(InOrder(t), InIndex(t, zp));
    if TwoChildren(Sub(t, zp)) {
      assert ErasePos(t, zp) != [];
    }
  }

  /** Cutting out a node loses exactly that node's identity. */
  lemma UnlinkIds(t: Tree, p: seq<Dir>)
    requires Distinct(t) && ValidPath(t, p) && Sub(t, p).Node? && !TwoChildren(Sub(t, p))
    ensures Distinct(Unlink(t, p)) && Ids(Unlink(t, p)) == Ids(t) - {Sub(t, p).id}
  {
    var y := Sub(t, p);
    IdsReplace(t, p, Spliced(y));
    assert Ids(y) == Ids(y.l) + {y.id} + Ids(y.r);
  }

  /** Identities after an erase: the key-copy erase loses the unlinked node,
      the node-move erase loses the erased node; every node stays distinct. */
  lemma EraseIds(t: Tree, zp: seq<Dir>)
    requires Distinct(t) && Sub(t, zp).Node?
    ensures var sp := ErasePos(t, zp);
            && Sub(t, sp).Node?
            && Distinct(EraseByKeyCopy(t, zp))
            && Ids(EraseByKeyCopy(t, zp)) == Ids(t) - {Sub(t, sp).id}
            && Distinct(EraseByNodeMove(t, zp))
            && Ids(EraseByNodeMove(t, zp)) == Ids(t) - {Sub(t, zp).id}
  {
    var z := Sub(t, zp);
    SubNodeValid(t, zp);
    if TwoChildren(z) {
      EraseIdsTwoChildren(t, zp);
    } else {
      IdsReplace(t, zp, Spliced(z));
      assert Ids(z) == Ids(z.l) + {z.id} + Ids(z.r);
    }
  }

  /** `EraseIds` when the erased node has two children. */
  lemma EraseIdsTwoChildren(t: Tree, zp: seq<Dir>)
    requires Distinct(t) && TwoChildren(Sub(t, zp))
    ensures var sp := ErasePos(t, zp);
            && Sub(t, sp).Node?
            && Distinct(EraseByKeyCopy(t, zp))
            && Ids(EraseByKeyCopy(t, zp)) == Ids(t) - {Sub(t, sp).id}
            && Distinct(EraseByNodeMove(t, zp))
            && Ids(EraseByNodeMove(t, zp)) == Ids(t) - {Sub(t, zp).id}
  {
    var z := Sub(t, zp);
    var y := Sub(z.r, MinPath(z.r));
    SuccessorIndex(t, zp);
    SuccessorIdDiffers(t, zp);
    EraseTwoIds(t, zp, z.id);
    EraseTwoIds(t, zp, y.id);
  }

  /** The erased node and its successor are two distinct nodes of the tree. */
  lemma SuccessorIdDiffers(t: Tree, zp: seq<Dir>)
    requires Distinct(t) && TwoChildren(Sub(t, zp))
    ensures var z := Sub(t, zp); var y := Sub(z.r, MinPath(z.r));
            z.id in Ids(t) && y.id in Ids(t) && z.id != y.id
  {
    var z := Sub(t, zp);
    SubNodeValid(t, zp);
    var y := Sub(z.r, MinPath(z.r));
    IdsReplace(t, zp, z);
    IdsReplace(z.r, MinPath(z.r), y);
    assert Ids(z) == Ids(z.l) + {z.id} + Ids(z.r);
    assert Ids(y) == Ids(y.l) + {y.id} + Ids(y.r);
  }

  /** With two children, the identities left are those of the tree minus the
      erased node and the successor, plus the one now at `zp`. */
  lemma EraseTwoIds(t: Tree, zp: seq<Dir>, id: nat)
    requires Distinct(t) && TwoChildren(Sub(t, zp))
    requires id == Sub(t, zp).id || id == Sub(Sub(t, zp).r, MinPath(Sub(t, zp).r)).id
    ensures var z := Sub(t, zp); var y := Sub(z.r, MinPath(z.r));
            && Distinct(EraseTwo(t, zp, id))
            && Ids(EraseTwo(t, zp, id)) == Ids(t) - {z.id, y.id} + {id}
  {
    var z := Sub(t, zp);
    var mp := MinPath(z.r);
    var y := Sub(z.r, mp);
    SubNodeValid(t, zp);
    IdsReplace(t, zp, z);
    SuccessorLifted(z, id);
    EraseTwoLocal(t, zp, id);
    var u := Node(z.c, z.l, y.k, Unlink(z.r, mp), id);
    assert Ids(u) <= Ids(z);
    IdsReplace(t, zp, u);
    assert (Ids(t) - Ids(z)) + Ids(u) == Ids(t) - {z.id, y.id} + {id};
  }

  /** The erased node `z` rebuilt with its successor's key under `id` and
      the successor cut out of its right subtree: both old identities are
      gone but `id`, and the nodes stay distinct. */
  lemma SuccessorLifted(z: Tree, id: nat)
    requires Distinct(z) && TwoChildren(z)
    requires id == z.id || id == Sub(z.r, MinPath(z.r)).id
    ensures var mp := MinPath(z.r); var y := Sub(z.r, mp); var u := Node(z.c, z.l, y.k, Unlink(z.r, mp), id);
            && Distinct(u) && Ids(u) == Ids(z) - {z.id, y.id} + {id}
            && z.id in Ids(z) && y.id in Ids(z)
  {
    var mp := MinPath(z.r);
    var y := Sub(z.r, mp);
    SubNodeValid(z.r, mp);
    assert Ids(z) == Ids(z.l) + {z.id} + Ids(z.r);
    IdsReplace(z.r, mp, Spliced(y));
    assert Ids(y) == Ids(y.l) + {y.id} + Ids(y.r);
    var r' := Unlink(z.r, mp);
    assert Ids(r') == Ids(z.r) - {y.id};
  }

  /** The two-children erase as one local rewrite at the erased node. */
  lemma EraseTwoLocal(t: Tree, zp: seq<Dir>, id: nat)
    requires TwoChildren(Sub(t, zp))
    ensures var z := Sub(t, zp); var mp := MinPath(z.r); var y := Sub(z.r, mp);
            EraseTwo(t, zp, id) == Replace(t, zp, Node(z.c, z.l, y.k, Unlink(z.r, mp), id))
  {
    var z := Sub(t, zp);
    var mp := MinPath(z.r);
    var y := Sub(z.r, mp);
    var z' := z.(k := y.k, id := id);
    SubNodeValid(t, zp);
    var t1 := RelabelAt(t, zp, y.k, id);
    var sp := ErasePos(t, zp);
    assert sp == zp + ([R] + mp);
    assert ([R] + mp)[0] == R && ([R] + mp)[1..] == mp;
    SubIn(t, zp, z', [R] + mp);
    assert Sub(t1, sp) == y;
    ReplaceConcat(t1, zp, [R] + mp, Spliced(y));
    ReplaceAt(t, zp, z');
    ReplaceReplace(t, zp, z', Replace(z', [R] + mp, Spliced(y)));
  }

  /** The node-move erase in one statement: the erased node's key leaves
      the in-order sequence, which stays sorted; the erased node (not the
      successor) leaves the tree; and the colour invariants hold again, or
      hold but for the one BLACK the fixup restores, according to where and
      what was cut out. */
  lemma EraseNodeMoveSpec(t: Tree, zp: seq<Dir>)
    requires ValidRB(t) && Distinct(t) && Sub(t, zp).Node?
    ensures var e := EraseByNodeMove(t, zp); var sp := ErasePos(t, zp);
            var s := InOrder(t); var i := InIndex(t, zp);
            && i < |s| && s[i] == Sub(t, zp).k && InOrder(e) == s[..i] + s[i + 1..] && Sorted(InOrder(e))
            && ValidPath(t, sp) && Sub(t, sp).Node? && !TwoChildren(Sub(t, sp))
            && Distinct(e) && Ids(e) == Ids(t) - {Sub(t, zp).id}
            && (sp == [] ==> zp == [] && Sub(t, sp).c == Black && IsRB(RecolorAt(e, [], Black)))
            && (sp != [] && Sub(t, sp).c == Red ==> IsRB(e))
            && (sp != [] && Sub(t, sp).c == Black ==> EraseFixInv(e, sp, BH(t)))
  {
    var z := Sub(t, zp);
    var sp := ErasePos(t, zp);
    if TwoChildren(z) {
      SuccessorIndex(t, zp);
      assert sp != [];
    }
    EraseRB(t, zp, Sub(t, sp).id);
    EraseAsUnlink(t, zp, Sub(t, sp).id);
    EraseIds(t, zp);
    EraseInOrder(t, zp);
    OrderedIffSorted(t);
    SortedRemove(InOrder(t), InIndex(t, zp));
  }

  /** Where the node-move erase reads: the erased node's right child, and
      the successor at the end of the leftmost descent from it, whose left
      child is the sentinel. */
  lemma EraseMovePaths(t: Tree, zp: seq<Dir>)
    requires TwoChildren(Sub(t, zp))
    ensures var z := Sub(t, zp); var mp := MinPath(z.r); var y := Sub(z.r, mp); var sp := ErasePos(t, zp);
            && sp == (zp + [R]) + mp && ValidPath(t, zp) && ValidPath(t, zp + [R]) && Sub(t, zp + [R]) == z.r
            && ValidPath(t, sp) && Sub(t, sp) == y && y.l.Leaf? && IdOf(Spliced(y)) == IdOf(y.r)
  {
    var z := Sub(t, zp);
    var mp := MinPath(z.r);
    SubNodeValid(t, zp);
    SubAppend(t, zp, R);
    SubConcat(t, zp + [R], mp);
  }

  /** Cutting the successor out leaves the erased node at `zp` with the
      cut right subtree. */
  lemma MoveCut(t: Tree, zp: seq<Dir>)
    requires TwoChildren(Sub(t, zp))
    ensures var z := Sub(t, zp); var mp := MinPath(z.r); var y := Sub(z.r, mp);
            var t1 := Unlink(t, ErasePos(t, zp));
            && ValidPath(t1, zp) && Sub(t1, zp) == z.(r := Unlink(z.r, mp))
            && Replace(t, zp, Replace(z, [R] + mp, Spliced(y))) == t1
            && (mp != [] ==> Unlink(z.r, mp).Node? && Unlink(z.r, mp).id == z.r.id)
  {
    var z := Sub(t, zp);
    var mp := MinPath(z.r);
    var y := Sub(z.r, mp);
    var sp := ErasePos(t, zp);
    SubNodeValid(t, zp);
    SuccessorIndex(t, zp);
    assert sp == zp + ([R] + mp);
    ReplaceBelow(t, zp, [R] + mp, Spliced(y));
    ReplaceConcat(t, zp, [R] + mp, Spliced(y));
    assert ([R] + mp)[0] == R && ([R] + mp)[1..] == mp;
    assert Replace(z, [R] + mp, Spliced(y)) == z.(r := Replace(z.r, mp, Spliced(y)));
    SubNodeValid(z.r, mp);
    if mp != [] {
      ReplaceKeepsRoot(z.r, mp, Spliced(y));
    }
  }

  /** Relabelling the erased node after the cut is the node-move erase. */
  lemma MoveRelabel(t: Tree, zp: seq<Dir>)
    requires TwoChildren(Sub(t, zp))
    ensures var z := Sub(t, zp); var mp := MinPath(z.r); var y := Sub(z.r, mp);
            var t1 := Unlink(t, ErasePos(t, zp));
            ValidPath(t1, zp) && Sub(t1, zp).Node? && EraseByNodeMove(t, zp) == Replace(t1, zp, Sub(t1, zp).(k := y.k, id := y.id))
  {
    var z := Sub(t, zp);
    var mp := MinPath(z.r);
    var y := Sub(z.r, mp);
    MoveCut(t, zp);
    var t1 := Unlink(t, ErasePos(t, zp));
    var u := Sub(t1, zp).(k := y.k, id := y.id);
    ReplaceReplace(t, zp, Replace(z, [R] + mp, Spliced(y)), u);
    EraseTwoLocal(t, zp, y.id);
  }
}
