// The red-black invariants cut along a path: what holds above a position,
// at the edge into it, and inside it.  The fixups repair a tree whose only
// defect sits at one position, and these predicates say "only there".

module RbInvariants {
  import opened RbSpec
  import opened RbPaths

  /** Both children satisfy the no-red-red rule; the node's own edges are free. */
  predicate ChildrenRedOk(t: Tree) {
    t.Leaf? || (RedOk(t.l) && RedOk(t.r))
  }

  /** No red node with a red child anywhere outside the subtree at `p`, the
      edge from `p`'s parent into `p` excepted. */
  predicate AboveOk(t: Tree, p: seq<Dir>)
    decreases p
  {
    p == [] ||
    (t.Node? &&
     var c := Child(t, p[0]);
     var o := Child(t, Flip(p[0]));
     && AboveOk(c, p[1..])
     && RedOk(o)
     && (t.c == Red ==> ColorOf(o) == Black)
     && (t.c == Red && |p| > 1 ==> ColorOf(c) == Black))
  }

  /** The edge from `p`'s parent into `p` is not red-red. */
  predicate EdgeOk(t: Tree, p: seq<Dir>)
    decreases p
  {
    if |p| == 0 then true
    else if t.Leaf? then false
    else if |p| == 1 then ColorOf(t) == Black || ColorOf(Child(t, p[0])) == Black
    else EdgeOk(Child(t, p[0]), p[1..])
  }

  /** The only red-red edges that may exist touch the node at `p`. */
  predicate RedOkExceptAt(t: Tree, p: seq<Dir>) {
    AboveOk(t, p) && ChildrenRedOk(Sub(t, p))
  }

  lemma {:induction false} RedOkSplit(t: Tree, p: seq<Dir>)
    requires ValidPath(t, p)
    ensures RedOk(t) <==> AboveOk(t, p) && RedOk(Sub(t, p)) && EdgeOk(t, p)
    decreases p
  {
    if p != [] {
      RedOkSplit(Child(t, p[0]), p[1..]);
    }
  }

  /** Replacing with a non-empty path never changes the root. */
  lemma ReplaceKeepsRoot(t: Tree, p: seq<Dir>, u: Tree)
    requires ValidPath(t, p) && p != []
    ensures Replace(t, p, u).Node?
    ensures Replace(t, p, u).c == t.c && Replace(t, p, u).k == t.k
    ensures Child(Replace(t, p, u), Flip(p[0])) == Child(t, Flip(p[0]))
    ensures Child(Replace(t, p, u), p[0]) == Replace(Child(t, p[0]), p[1..], u)
  {
  }

  lemma {:induction false} AboveOkReplace(t: Tree, p: seq<Dir>, u: Tree)
    requires ValidPath(t, p)
    ensures ValidPath(Replace(t, p, u), p)
    ensures AboveOk(Replace(t, p, u), p) == AboveOk(t, p)
    decreases p
  {
    ReplaceAt(t, p, u);
    if p != [] {
      ReplaceKeepsRoot(t, p, u);
      AboveOkReplace(Child(t, p[0]), p[1..], u);
      if |p| > 1 {
        ReplaceKeepsRoot(Child(t, p[0]), p[1..], u);
      }
    }
  }

  lemma {:induction false} EdgeOkReplace(t: Tree, p: seq<Dir>, u: Tree)
    requires ValidPath(t, p)
    ensures ValidPath(Replace(t, p, u), p)
    ensures ColorOf(u) == Black ==> EdgeOk(Replace(t, p, u), p)
    ensures ColorOf(u) == ColorOf(Sub(t, p)) ==> EdgeOk(Replace(t, p, u), p) == EdgeOk(t, p)
    decreases p
  {
    ReplaceAt(t, p, u);
    if p != [] {
      ReplaceKeepsRoot(t, p, u);
      EdgeOkReplace(Child(t, p[0]), p[1..], u);
    }
  }

  lemma {:induction false} AboveOkConcat(t: Tree, q: seq<Dir>, r: seq<Dir>)
    requires ValidPath(t, q + r)
    ensures ValidPath(t, q) && ValidPath(Sub(t, q), r)
    ensures AboveOk(t, q + r) <==>
            AboveOk(t, q) && AboveOk(Sub(t, q), r) && (r != [] ==> EdgeOk(t, q))
    decreases q
  {
    SubConcat(t, q, r);
    if q == [] {
      assert q + r == r;
    } else {
      assert (q + r)[0] == q[0];
      assert (q + r)[1..] == q[1..] + r;
      AboveOkConcat(Child(t, q[0]), q[1..], r);
    }
  }

  lemma {:induction false} EdgeOkConcat(t: Tree, q: seq<Dir>, r: seq<Dir>)
    requires ValidPath(t, q + r) && r != []
    ensures ValidPath(t, q) && ValidPath(Sub(t, q), r)
    ensures EdgeOk(t, q + r) == EdgeOk(Sub(t, q), r)
    decreases q
  {
    SubConcat(t, q, r);
    if q == [] {
      assert q + r == r;
    } else {
      assert (q + r)[0] == q[0];
      assert (q + r)[1..] == q[1..] + r;
      EdgeOkConcat(Child(t, q[0]), q[1..], r);
    }
  }

  /** The edge into a position whose parent is BLACK is never red-red. */
  lemma {:induction false} EdgeOkBlackParent(t: Tree, p: seq<Dir>)
    requires p != [] && ValidPath(t, p)
    ensures ValidPath(t, Parent(p)) && Sub(t, Parent(p)).Node?
    ensures Sub(t, Parent(p)).c == Black ==> EdgeOk(t, p)
    decreases p
  {
    SubParent(t, p);
    if |p| > 1 {
      assert Parent(p)[0] == p[0] && Parent(p)[1..] == Parent(p[1..]);
      EdgeOkBlackParent(Child(t, p[0]), p[1..]);
    }
  }

  /** The black height a subtree at `p` must have for the whole tree to have
      black height `h`. */
  function ReqH(t: Tree, p: seq<Dir>, h: int): int
    decreases p
  {
    if p == [] || t.Leaf? then h
    else ReqH(Child(t, p[0]), p[1..], h - (if t.c == Black then 1 else 0))
  }

  /** Every subtree hanging off the path to `p` is balanced with exactly the
      black height that a tree of black height `h` needs there. */
  predicate BalancedAbove(t: Tree, p: seq<Dir>, h: int)
    decreases p
  {
    p == [] ||
    (t.Node? &&
     var h' := h - (if t.c == Black then 1 else 0);
     var o := Child(t, Flip(p[0]));
     && BalancedAbove(Child(t, p[0]), p[1..], h')
     && Balanced(o)
     && BH(o) == h')
  }

  /** The subtree at `p` is one BLACK short: with an extra black there the
      tree would be balanced with black height `h`. */
  predicate DeficitAt(t: Tree, p: seq<Dir>, h: int) {
    BalancedAbove(t, p, h) && Balanced(Sub(t, p)) && BH(Sub(t, p)) + 1 == ReqH(t, p, h)
  }

  lemma {:induction false} BalancedSplit(t: Tree, p: seq<Dir>, h: int)
    requires ValidPath(t, p)
    ensures (Balanced(t) && BH(t) == h) <==>
            (BalancedAbove(t, p, h) && Balanced(Sub(t, p)) && BH(Sub(t, p)) == ReqH(t, p, h))
    decreases p
  {
    if p != [] {
      BalancedSplit(Child(t, p[0]), p[1..], h - (if t.c == Black then 1 else 0));
    }
  }

  lemma {:induction false} BalancedAboveReplace(t: Tree, p: seq<Dir>, u: Tree, h: int)
    requires ValidPath(t, p)
    ensures ValidPath(Replace(t, p, u), p)
    ensures BalancedAbove(Replace(t, p, u), p, h) == BalancedAbove(t, p, h)
    ensures ReqH(Replace(t, p, u), p, h) == ReqH(t, p, h)
    decreases p
  {
    ReplaceAt(t, p, u);
    if p != [] {
      ReplaceKeepsRoot(t, p, u);
      BalancedAboveReplace(Child(t, p[0]), p[1..], u, h - (if t.c == Black then 1 else 0));
    }
  }

  lemma {:induction false} BalancedAboveConcat(t: Tree, q: seq<Dir>, r: seq<Dir>, h: int)
    requires ValidPath(t, q + r)
    ensures ValidPath(t, q) && ValidPath(Sub(t, q), r)
    ensures BalancedAbove(t, q + r, h) <==>
            BalancedAbove(t, q, h) && BalancedAbove(Sub(t, q), r, ReqH(t, q, h))
    ensures ReqH(t, q + r, h) == ReqH(Sub(t, q), r, ReqH(t, q, h))
    decreases q
  {
    SubConcat(t, q, r);
    if q == [] {
      assert q + r == r;
    } else {
      assert (q + r)[0] == q[0];
      assert (q + r)[1..] == q[1..] + r;
      BalancedAboveConcat(Child(t, q[0]), q[1..], r, h - (if t.c == Black then 1 else 0));
    }
  }
}
