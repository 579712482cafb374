// The rebalancing steps of insert and erase, as operations on tree values.
// Each case of a fixup is a short sequence of recolourings and rotations at
// positions near the defect; the lemmas here say that each case either
// moves the defect upward (keeping the fixup's invariant) or removes it.
// Both implementations perform the same cases with the operations in a
// different order, so each case has one lemma per order.

module RbFixup {
  import opened RbSpec
  import opened RbPaths
  import opened RbInvariants

  /** The position of the other child of `p`'s parent. */
  function Sibling(p: seq<Dir>): (q: seq<Dir>)
    requires p != []
    ensures |q| == |p| && q != [] && Parent(q) == Parent(p) && Last(q) == Flip(Last(p))
  {
    var q := Parent(p) + [Flip(Last(p))];
    assert q[..|q| - 1] == Parent(p);
    q
  }

  /** `node->color = c` for the node at `p` (nothing when `p` holds no node). */
  function RecolorAt(t: Tree, p: seq<Dir>, c: Color): (u: Tree)
    ensures InOrder(u) == InOrder(t)
    ensures Distinct(t) ==> Ids(u) == Ids(t) && Distinct(u)
  {
    var s := Sub(t, p);
    if s.Node? then
      SubNodeValid(t, p);
      InOrderReplace(t, p, Recolor(s, c));
      assert Distinct(t) ==> Ids(Replace(t, p, Recolor(s, c))) == Ids(t) && Distinct(Replace(t, p, Recolor(s, c))) by {
        if Distinct(t) {
          IdsReplace(t, p, Recolor(s, c));
        }
      }
      Replace(t, p, Recolor(s, c))
    else
      t
  }

  /** The rotation that moves the node at `p` down on side `d` (nothing when
      there is no node at `p` or no child to lift). */
  function RotateAt(t: Tree, p: seq<Dir>, d: Dir): (u: Tree)
    ensures InOrder(u) == InOrder(t)
    ensures Distinct(t) ==> Ids(u) == Ids(t) && Distinct(u)
  {
    var s := Sub(t, p);
    if s.Node? && Child(s, Flip(d)).Node? then
      SubNodeValid(t, p);
      InOrderReplace(t, p, Rot(s, d));
      assert Distinct(t) ==> Ids(Replace(t, p, Rot(s, d))) == Ids(t) && Distinct(Replace(t, p, Rot(s, d))) by {
        if Distinct(t) {
          IdsReplace(t, p, Rot(s, d));
        }
      }
      Replace(t, p, Rot(s, d))
    else
      t
  }

  /** `exchange_color(node1, node2)` for the nodes at `p` and `q`. */
  function Exchange(t: Tree, p: seq<Dir>, q: seq<Dir>): (u: Tree)
    ensures InOrder(u) == InOrder(t)
    ensures Distinct(t) ==> Ids(u) == Ids(t) && Distinct(u)
  {
    RecolorAt(RecolorAt(t, p, ColorOf(Sub(t, q))), q, ColorOf(Sub(t, p)))
  }

  /** A recolouring keeps every position and the node at it; only the
      colour of the node at `p` changes. */
  lemma RecolorKeeps(t: Tree, p: seq<Dir>, c: Color, q: seq<Dir>)
    requires ValidPath(t, q)
    ensures var u := RecolorAt(t, p, c);
            && ValidPath(u, q) && Sub(u, q).Node? == Sub(t, q).Node?
            && IdOf(Sub(u, q)) == IdOf(Sub(t, q))
            && (Sub(t, q).Node? ==> Sub(u, q).k == Sub(t, q).k)
            && ColorOf(Sub(u, q)) == (if q == p && Sub(t, p).Node? then c else ColorOf(Sub(t, q)))
  {
    var s := Sub(t, p);
    if s.Node? {
      SubNodeValid(t, p);
      var s' := Recolor(s, c);
      var u := Replace(t, p, s');
      if p <= q {
        var r := q[|p|..];
        assert q == p + r;
        SubConcat(t, p, r);
        ReplaceAt(t, p, s');
        SubConcat(u, p, r);
        if r != [] {
          assert Sub(s', r) == Sub(Child(s, r[0]), r[1..]);
          assert Sub(s, r) == Sub(Child(s, r[0]), r[1..]);
        }
      } else {
        ReplaceOff(t, p, s', q);
      }
    }
  }

  /** Where a rotation puts the pivot, the lifted child and its outer
      subtree. */
  lemma RotateSub(t: Tree, pp: seq<Dir>, d: Dir)
    requires ValidPath(t, pp) && Sub(t, pp).Node? && Child(Sub(t, pp), Flip(d)).Node?
    ensures var s := Sub(t, pp); var c := Child(s, Flip(d)); var u := RotateAt(t, pp, d);
            && ValidPath(u, pp) && Sub(u, pp) == SetChild(c, d, SetChild(s, Flip(d), Child(c, d)))
            && ValidPath(u, pp + [d]) && Sub(u, pp + [d]) == SetChild(s, Flip(d), Child(c, d))
            && ValidPath(u, pp + [Flip(d)]) && Sub(u, pp + [Flip(d)]) == Child(c, Flip(d))
            && IdOf(u) == (if pp == [] then c.id else IdOf(t))
  {
    var s := Sub(t, pp);
    var c := Child(s, Flip(d));
    var u := RotateAt(t, pp, d);
    SubNodeValid(t, pp);
    ReplaceAt(t, pp, Rot(s, d));
    assert Rot(s, d) == SetChild(c, d, SetChild(s, Flip(d), Child(c, d)));
    SubAppend(u, pp, d);
    SubAppend(u, pp, Flip(d));
    assert Flip(Flip(d)) == d;
    if pp != [] {
      ReplaceOff(t, pp, Rot(s, d), []);
    }
  }

  /** A rotation leaves every position that is not at or below the pivot
      in place, with the same node and colour on top. */
  lemma RotateOff(t: Tree, pp: seq<Dir>, d: Dir, q: seq<Dir>)
    requires ValidPath(t, q) && !(pp <= q)
    ensures var u := RotateAt(t, pp, d);
            && ValidPath(u, q) && Sub(u, q).Node? == Sub(t, q).Node?
            && IdOf(Sub(u, q)) == IdOf(Sub(t, q)) && ColorOf(Sub(u, q)) == ColorOf(Sub(t, q))
  {
    var s := Sub(t, pp);
    if s.Node? && Child(s, Flip(d)).Node? {
      SubNodeValid(t, pp);
      ReplaceOff(t, pp, Rot(s, d), q);
    }
  }

  /** `exchange_color` keeps every position and the node at it, and swaps
      the colours of the two nodes. */
  lemma ExchangeKeeps(t: Tree, p: seq<Dir>, q: seq<Dir>, r: seq<Dir>)
    requires p != q && ValidPath(t, p) && ValidPath(t, q) && ValidPath(t, r)
    requires Sub(t, p).Node? && Sub(t, q).Node?
    ensures var u := Exchange(t, p, q);
            && ValidPath(u, r) && Sub(u, r).Node? == Sub(t, r).Node?
            && IdOf(Sub(u, r)) == IdOf(Sub(t, r))
            && (Sub(t, r).Node? ==> Sub(u, r).k == Sub(t, r).k)
            && ColorOf(Sub(u, r)) ==
               (if r == p then ColorOf(Sub(t, q)) else if r == q then ColorOf(Sub(t, p)) else ColorOf(Sub(t, r)))
  {
    var t1 := RecolorAt(t, p, ColorOf(Sub(t, q)));
    RecolorKeeps(t, p, ColorOf(Sub(t, q)), q);
    RecolorKeeps(t, p, ColorOf(Sub(t, q)), r);
    RecolorKeeps(t1, q, ColorOf(Sub(t, p)), r);
  }

  // ---------------------------------------------------------------------
  // Operations at short paths, and operations below a position.

  lemma SubOne(t: Tree, d: Dir)
    requires t.Node?
    ensures Sub(t, [d]) == Child(t, d)
    ensures forall u :: Replace(t, [d], u) == SetChild(t, d, u)
  {
    assert [d][1..] == [];
  }

  lemma RecolorAtRoot(t: Tree, c: Color)
    requires t.Node?
    ensures RecolorAt(t, [], c) == Recolor(t, c)
  {
  }

  lemma RotateAtRoot(t: Tree, d: Dir)
    requires t.Node? && Child(t, Flip(d)).Node?
    ensures RotateAt(t, [], d) == Rot(t, d)
  {
  }

  lemma RecolorAtOne(t: Tree, d: Dir, c: Color)
    requires t.Node? && Child(t, d).Node?
    ensures RecolorAt(t, [d], c) == SetChild(t, d, Recolor(Child(t, d), c))
  {
    SubOne(t, d);
  }

  lemma RotateAtOne(t: Tree, d: Dir, e: Dir)
    requires t.Node? && Child(t, d).Node? && Child(Child(t, d), Flip(e)).Node?
    ensures RotateAt(t, [d], e) == SetChild(t, d, Rot(Child(t, d), e))
  {
    SubOne(t, d);
  }

  /** A recolouring below `q` in a tree whose subtree at `q` is `a`. */
  lemma RecolorIn(t: Tree, q: seq<Dir>, a: Tree, r: seq<Dir>, c: Color)
    requires ValidPath(t, q)
    ensures RecolorAt(Replace(t, q, a), q + r, c) == Replace(t, q, RecolorAt(a, r, c))
  {
    var t1 := Replace(t, q, a);
    ReplaceAt(t, q, a);
    SubConcat(t1, q, r);
    var s := Sub(a, r);
    if s.Node? {
      ReplaceConcat(t1, q, r, Recolor(s, c));
      ReplaceReplace(t, q, a, Replace(a, r, Recolor(s, c)));
    } else {
      ReplaceSub(t1, q);
    }
  }

  /** A rotation below `q` in a tree whose subtree at `q` is `a`. */
  lemma RotateIn(t: Tree, q: seq<Dir>, a: Tree, r: seq<Dir>, d: Dir)
    requires ValidPath(t, q)
    ensures RotateAt(Replace(t, q, a), q + r, d) == Replace(t, q, RotateAt(a, r, d))
  {
    var t1 := Replace(t, q, a);
    ReplaceAt(t, q, a);
    SubConcat(t1, q, r);
    var s := Sub(a, r);
    if s.Node? && Child(s, Flip(d)).Node? {
      ReplaceConcat(t1, q, r, Rot(s, d));
      ReplaceReplace(t, q, a, Replace(a, r, Rot(s, d)));
    } else {
      ReplaceSub(t1, q);
    }
  }

  /** Reading below `q` in a tree whose subtree at `q` is `a`. */
  lemma SubIn(t: Tree, q: seq<Dir>, a: Tree, r: seq<Dir>)
    requires ValidPath(t, q)
    ensures Sub(Replace(t, q, a), q + r) == Sub(a, r)
  {
    ReplaceAt(t, q, a);
    SubConcat(Replace(t, q, a), q, r);
  }

  lemma SubTwo(t: Tree, a: Dir, b: Dir)
    requires t.Node? && Child(t, a).Node?
    ensures Sub(t, [a, b]) == Child(Child(t, a), b)
  {
    assert [a, b][0] == a && [a, b][1..] == [b];
    assert [b][0] == b && [b][1..] == [];
    assert Sub(t, [a, b]) == Sub(Child(t, a), [b]);
    assert Sub(Child(t, a), [b]) == Sub(Child(Child(t, a), b), []);
  }

  /** The two last steps of a path of length at least two. */
  lemma PathTwo(p: seq<Dir>)
    requires |p| >= 2
    ensures p == Parent(Parent(p)) + [Last(Parent(p)), Last(p)]
    ensures Parent(p) == Parent(Parent(p)) + [Last(Parent(p))]
    ensures Sibling(Parent(p)) == Parent(Parent(p)) + [Flip(Last(Parent(p)))]
  {
  }

  lemma BHChild(t: Tree, d: Dir)
    requires t.Node? && Balanced(t)
    ensures Balanced(Child(t, d))
    ensures BH(t) == BH(Child(t, d)) + (if t.c == Black then 1 else 0)
  {
  }

  // ---------------------------------------------------------------------
  // Putting a repaired subtree back.

  /** A subtree that is a valid red-black tree of the black height required
      at `q`, put at `q`, completes a valid red-black tree. */
  lemma LiftRB(t: Tree, q: seq<Dir>, u: Tree, h: int)
    requires ValidPath(t, q) && BalancedAbove(t, q, h) && AboveOk(t, q)
    requires Balanced(u) && BH(u) == ReqH(t, q, h) && RedOk(u)
    requires ColorOf(u) == Black || (ColorOf(u) == ColorOf(Sub(t, q)) && EdgeOk(t, q))
    requires q == [] ==> ColorOf(u) == Black
    requires q != [] ==> ColorOf(t) == Black
    ensures IsRB(Replace(t, q, u)) && BH(Replace(t, q, u)) == h
  {
    var t' := Replace(t, q, u);
    ReplaceAt(t, q, u);
    BalancedAboveReplace(t, q, u, h);
    BalancedSplit(t', q, h);
    AboveOkReplace(t, q, u);
    EdgeOkReplace(t, q, u);
    RedOkSplit(t', q);
    if q != [] {
      ReplaceKeepsRoot(t, q, u);
    }
  }

  // ---------------------------------------------------------------------
  // Insert fixup.

  /** The insert fixup's state: the tree is balanced, and the only red-red
      edge there may be joins the RED node at `p` to its parent. */
  predicate InsertFixInv(t: Tree, p: seq<Dir>) {
    && ValidPath(t, p) && Sub(t, p).Node? && Sub(t, p).c == Red
    && Balanced(t) && AboveOk(t, p) && RedOk(Sub(t, p))
    && (p != [] ==> ColorOf(t) == Black)
  }

  /** A subtree with the same black height, whose only possible defect is at
      `r2` below it, moves the insert fixup's state up to `q + r2`. */
  lemma LiftInsert(t: Tree, q: seq<Dir>, r: seq<Dir>, u: Tree, r2: seq<Dir>)
    requires InsertFixInv(t, q + r) && r != []
    requires ValidPath(u, r2) && Sub(u, r2).Node? && Sub(u, r2).c == Red
    requires AboveOk(u, r2) && RedOk(Sub(u, r2))
    requires Balanced(u) && BH(u) == BH(Sub(t, q))
    requires r2 != [] ==> ColorOf(u) == ColorOf(Sub(t, q))
    ensures InsertFixInv(Replace(t, q, u), q + r2)
  {
    var h := BH(t);
    var t' := Replace(t, q, u);
    AboveOkConcat(t, q, r);
    ReplaceAt(t, q, u);
    SubConcat(t', q, r2);
    BalancedSplit(t, q, h);
    BalancedAboveReplace(t, q, u, h);
    BalancedSplit(t', q, h);
    AboveOkReplace(t, q, u);
    EdgeOkReplace(t, q, u);
    AboveOkConcat(t', q, r2);
    if q != [] {
      ReplaceKeepsRoot(t, q, u);
    } else {
      assert q + r == r;
    }
  }

  /** The configuration of a red node at `[a, b]` below a subtree `g` whose
      child `[a]` is RED too. */
  predicate RedPair(g: Tree, a: Dir, b: Dir) {
    && g.Node? && Child(g, a).Node? && Child(Child(g, a), b).Node?
    && Child(g, a).c == Red && Child(Child(g, a), b).c == Red
    && Balanced(g) && AboveOk(g, [a, b]) && RedOk(Child(Child(g, a), b))
  }

  lemma RedPairFacts(g: Tree, a: Dir, b: Dir)
    requires RedPair(g, a, b)
    ensures g.c == Black
    ensures var pn := Child(g, a); var u := Child(g, Flip(a));
            var x := Child(pn, b); var s := Child(pn, Flip(b));
            && RedOk(u) && RedOk(s) && ColorOf(s) == Black && RedOk(x)
            && Balanced(pn) && Balanced(u) && Balanced(x) && Balanced(s)
            && BH(u) == BH(pn) && BH(x) == BH(pn) && BH(s) == BH(pn) && BH(g) == BH(pn) + 1
            && ColorOf(Child(x, L)) == Black && ColorOf(Child(x, R)) == Black
            && RedOk(Child(x, L)) && RedOk(Child(x, R))
            && Balanced(Child(x, L)) && Balanced(Child(x, R))
            && BH(Child(x, L)) == BH(pn) && BH(Child(x, R)) == BH(pn)
  {
    assert [a, b][0] == a && [a, b][1..] == [b];
    assert [b][0] == b && [b][1..] == [];
    assert AboveOk(Child(g, a), [b]);
    assert RedOk(Child(g, Flip(a)));
    assert RedOk(Child(Child(g, a), Flip(b)));
    BHChild(g, a);
    BHChild(g, Flip(a));
    BHChild(Child(g, a), b);
    BHChild(Child(g, a), Flip(b));
    BHChild(Child(Child(g, a), b), L);
    BHChild(Child(Child(g, a), b), R);
  }

  /** Whole-tree view of a red node whose parent is red: the grandparent
      exists, is BLACK, and the local configuration below it is a RedPair. */
  lemma InsertFixRedParent(t: Tree, p: seq<Dir>)
    requires InsertFixInv(t, p) && p != []
    requires ColorOf(Sub(t, Parent(p))) == Red
    ensures |p| >= 2
    ensures ValidPath(t, Parent(Parent(p))) && Sub(t, Parent(Parent(p))).Node?
    ensures RedPair(Sub(t, Parent(Parent(p))), Last(Parent(p)), Last(p))
    ensures Sub(t, Parent(Parent(p))).c == Black
    ensures ValidPath(t, Parent(p)) && Sub(t, Parent(p)).Node?
    ensures ValidPath(t, Sibling(Parent(p)))
    ensures Sub(t, Parent(p)) == Child(Sub(t, Parent(Parent(p))), Last(Parent(p)))
    ensures Sub(t, Sibling(Parent(p))) == Child(Sub(t, Parent(Parent(p))), Flip(Last(Parent(p))))
  {
    SubParent(t, p);
    var gp := Parent(Parent(p));
    var a := Last(Parent(p));
    var b := Last(p);
    PathTwo(p);
    AboveOkConcat(t, gp, [a, b]);
    SubConcat(t, gp, [a, b]);
    var g := Sub(t, gp);
    SubTwo(g, a, b);
    SubParent(t, Parent(p));
    BalancedSplit(t, gp, BH(t));
    SubAppend(t, gp, Flip(a));
    RedPairFacts(g, a, b);
  }

  /** `node` is the root: painting it BLACK finishes the fixup. */
  lemma InsertFixRoot(t: Tree)
    requires InsertFixInv(t, [])
    ensures IsRB(RecolorAt(t, [], Black))
  {
    RecolorAtRoot(t, Black);
  }

  /** The parent of `node` is BLACK: the tree is already valid. */
  lemma InsertFixBlackParent(t: Tree, p: seq<Dir>)
    requires InsertFixInv(t, p) && p != []
    requires ColorOf(Sub(t, Parent(p))) == Black
    ensures IsRB(t)
  {
    EdgeOkBlackParent(t, p);
    RedOkSplit(t, p);
  }

  /** A RED node in a valid tree is a (trivially repaired) fixup state. */
  lemma InsertFixOfRB(t: Tree, p: seq<Dir>)
    requires IsRB(t) && ValidPath(t, p) && Sub(t, p).Node? && Sub(t, p).c == Red
    ensures InsertFixInv(t, p)
  {
    RedOkSplit(t, p);
  }

  /** Painting the root BLACK changes nothing in a valid tree. */
  lemma RecolorRootOfRB(t: Tree)
    requires ColorOf(t) == Black
    ensures RecolorAt(t, [], Black) == t
  {
  }

  lemma InsertRecolorLocal(g: Tree, a: Dir, b: Dir)
    requires RedPair(g, a, b) && ColorOf(Child(g, Flip(a))) == Red
    ensures var g3 := RecolorAt(RecolorAt(RecolorAt(g, [a], Black), [Flip(a)], Black), [], Red);
            g3.Node? && g3.c == Red && RedOk(g3) && Balanced(g3) && BH(g3) == BH(g)
  {
    RedPairFacts(g, a, b);
    var g1 := SetChild(g, a, Recolor(Child(g, a), Black));
    RecolorAtOne(g, a, Black);
    var g2 := SetChild(g1, Flip(a), Recolor(Child(g, Flip(a)), Black));
    RecolorAtOne(g1, Flip(a), Black);
    RecolorAtRoot(g2, Red);
    var pn := Child(g, a);
    BHChild(pn, b);
    BHChild(pn, Flip(b));
    BHChild(Child(g, Flip(a)), L);
    if b == L {
      assert RedOk(Recolor(pn, Black));
    } else {
      assert RedOk(Recolor(pn, Black));
    }
  }

  /** Case 1 (the uncle is RED): parent and uncle become BLACK, the
      grandparent RED, and the defect moves up two levels. */
  lemma InsertFixRecolor(t: Tree, p: seq<Dir>)
    requires InsertFixInv(t, p) && |p| >= 2
    requires ColorOf(Sub(t, Parent(p))) == Red
    requires ColorOf(Sub(t, Sibling(Parent(p)))) == Red
    ensures InsertFixInv(
              RecolorAt(RecolorAt(RecolorAt(t, Parent(p), Black), Sibling(Parent(p)), Black),
                        Parent(Parent(p)), Red),
              Parent(Parent(p)))
  {
    InsertFixRedParent(t, p);
    var gp := Parent(Parent(p));
    var a := Last(Parent(p));
    var b := Last(p);
    var g := Sub(t, gp);
    PathTwo(p);
    ReplaceSub(t, gp);
    var g1 := RecolorAt(g, [a], Black);
    RecolorIn(t, gp, g, [a], Black);
    var g2 := RecolorAt(g1, [Flip(a)], Black);
    RecolorIn(t, gp, g1, [Flip(a)], Black);
    var g3 := RecolorAt(g2, [], Red);
    RecolorIn(t, gp, g2, [], Red);
    assert gp + [] == gp;
    InsertRecolorLocal(g, a, b);
    LiftInsert(t, gp, [a, b], g3, []);
    assert gp + [] == gp;
  }

  /** Lifting the parent over a BLACK grandparent when parent and node lie on
      one line; both implementations' orders of the three steps give the
      same subtree, a valid red-black tree of unchanged black height. */
  lemma InsertLineLocal(g: Tree, a: Dir)
    requires RedPair(g, a, a) && ColorOf(Child(g, Flip(a))) == Black
    ensures var g1 := RecolorAt(RecolorAt(RotateAt(g, [], Flip(a)), [], Black), [Flip(a)], Red);
            && g1 == RotateAt(RecolorAt(RecolorAt(g, [a], Black), [], Red), [], Flip(a))
            && g1.Node? && g1.c == Black && RedOk(g1) && Balanced(g1) && BH(g1) == BH(g)
            && Child(g1, a) == Child(Child(g, a), a)
  {
    RedPairFacts(g, a, a);
    var pn := Child(g, a);
    var x := Child(pn, a);
    RotateAtRoot(g, Flip(a));
    var r1 := Rot(g, Flip(a));
    RecolorAtRoot(r1, Black);
    var r2 := Recolor(r1, Black);
    RecolorAtOne(r2, Flip(a), Red);
    RecolorAtOne(g, a, Black);
    var q1 := SetChild(g, a, Recolor(pn, Black));
    RecolorAtRoot(q1, Red);
    var q2 := Recolor(q1, Red);
    RotateAtRoot(q2, Flip(a));
    BHChild(pn, Flip(a));
  }

  /** Turning a triangle into a line: the rotation at the parent keeps the
      shape of a red pair, now on one line, with the same black height. */
  lemma InsertTriangleLocal(g: Tree, a: Dir)
    requires RedPair(g, a, Flip(a))
    ensures var g1 := RotateAt(g, [a], a);
            && RedPair(g1, a, a) && g1.c == g.c && BH(g1) == BH(g)
            && Child(g1, Flip(a)) == Child(g, Flip(a))
  {
    RedPairFacts(g, a, Flip(a));
    var pn := Child(g, a);
    RotateAtOne(g, a, a);
    var g1 := SetChild(g, a, Rot(pn, a));
    BHChild(pn, a);
    BHChild(Child(pn, Flip(a)), a);
    assert Balanced(Rot(pn, a)) && BH(Rot(pn, a)) == BH(pn) by {
      if a == L {
        assert Balanced(Rot(pn, a).l);
      } else {
        assert Balanced(Rot(pn, a).r);
      }
    }
    SubTwo(g1, a, a);
    assert [a, a][0] == a && [a, a][1..] == [a];
    assert [a][0] == a && [a][1..] == [];
    assert AboveOk(Child(g1, a), [a]);
  }

  /** Case 3 as `src` orders it (rotate at the grandparent, paint the lifted
      parent BLACK and the grandparent RED): the tree is valid again. */
  lemma InsertFixLineSrc(t: Tree, p: seq<Dir>)
    requires InsertFixInv(t, p) && |p| >= 2
    requires ColorOf(Sub(t, Parent(p))) == Red
    requires ColorOf(Sub(t, Sibling(Parent(p)))) == Black
    requires Last(p) == Last(Parent(p))
    ensures IsRB(RecolorAt(RecolorAt(RotateAt(t, Parent(Parent(p)), Flip(Last(Parent(p)))),
                                     Parent(Parent(p)), Black),
                           Sibling(Parent(p)), Red))
  {
    InsertFixRedParent(t, p);
    var gp := Parent(Parent(p));
    var a := Last(Parent(p));
    var g := Sub(t, gp);
    PathTwo(p);
    ReplaceSub(t, gp);
    assert gp + [] == gp;
    var g1 := RotateAt(g, [], Flip(a));
    RotateIn(t, gp, g, [], Flip(a));
    var g2 := RecolorAt(g1, [], Black);
    RecolorIn(t, gp, g1, [], Black);
    RecolorIn(t, gp, g2, [Flip(a)], Red);
    InsertLineLocal(g, a);
    AboveOkConcat(t, gp, [a, a]);
    BalancedSplit(t, gp, BH(t));
    LiftRB(t, gp, RecolorAt(g2, [Flip(a)], Red), BH(t));
  }

  /** Case 2 then case 3 as `src` orders it (lift the node over its parent,
      then over its grandparent): the tree is valid again. */
  lemma InsertFixTriangleSrc(t: Tree, p: seq<Dir>)
    requires InsertFixInv(t, p) && |p| >= 2
    requires ColorOf(Sub(t, Parent(p))) == Red
    requires ColorOf(Sub(t, Sibling(Parent(p)))) == Black
    requires Last(p) == Flip(Last(Parent(p)))
    ensures IsRB(RecolorAt(RecolorAt(RotateAt(RotateAt(t, Parent(p), Last(Parent(p))),
                                              Parent(Parent(p)), Flip(Last(Parent(p)))),
                                     Parent(Parent(p)), Black),
                           Sibling(Parent(p)), Red))
  {
    InsertFixRedParent(t, p);
    var gp := Parent(Parent(p));
    var a := Last(Parent(p));
    var g := Sub(t, gp);
    PathTwo(p);
    ReplaceSub(t, gp);
    assert gp + [] == gp;
    var g0 := RotateAt(g, [a], a);
    RotateIn(t, gp, g, [a], a);
    var g1 := RotateAt(g0, [], Flip(a));
    RotateIn(t, gp, g0, [], Flip(a));
    var g2 := RecolorAt(g1, [], Black);
    RecolorIn(t, gp, g1, [], Black);
    RecolorIn(t, gp, g2, [Flip(a)], Red);
    InsertTriangleLocal(g, a);
    InsertLineLocal(g0, a);
    AboveOkConcat(t, gp, [a, Flip(a)]);
    BalancedSplit(t, gp, BH(t));
    LiftRB(t, gp, RecolorAt(g2, [Flip(a)], Red), BH(t));
  }

  /** Case 2 as `practice` does it (`node = node->parent`, rotate there): the
      old parent is now the RED node, on a line with its RED parent, and the
      uncle is unchanged. */
  lemma InsertFixTrianglePractice(t: Tree, p: seq<Dir>)
    requires InsertFixInv(t, p) && |p| >= 2
    requires ColorOf(Sub(t, Parent(p))) == Red
    requires ColorOf(Sub(t, Sibling(Parent(p)))) == Black
    requires Last(p) == Flip(Last(Parent(p)))
    ensures var p1 := Parent(p) + [Last(Parent(p))];
            var t1 := RotateAt(t, Parent(p), Last(Parent(p)));
            && |p1| == |p| && Parent(p1) == Parent(p) && Last(p1) == Last(Parent(p))
            && InsertFixInv(t1, p1)
            && ColorOf(Sub(t1, Parent(p))) == Red
            && ColorOf(Sub(t1, Sibling(Parent(p)))) == Black
  {
    InsertFixRedParent(t, p);
    var gp := Parent(Parent(p));
    var a := Last(Parent(p));
    var g := Sub(t, gp);
    PathTwo(p);
    ReplaceSub(t, gp);
    var g1 := RotateAt(g, [a], a);
    RotateIn(t, gp, g, [a], a);
    InsertTriangleLocal(g, a);
    SubTwo(g1, a, a);
    LiftInsert(t, gp, [a, Flip(a)], g1, [a, a]);
    var p1 := Parent(p) + [a];
    assert p1 == gp + [a, a];
    assert p1[..|p1| - 1] == Parent(p);
    SubIn(t, gp, g1, [a]);
    SubIn(t, gp, g1, [Flip(a)]);
    SubOne(g1, a);
    SubOne(g1, Flip(a));
  }

  /** Case 3 as `practice` orders it (paint parent BLACK and grandparent RED,
      then rotate at the grandparent): the tree is valid, the node now sits
      one level higher and its new parent is BLACK, which ends the loop. */
  lemma InsertFixLinePractice(t: Tree, p: seq<Dir>)
    requires InsertFixInv(t, p) && |p| >= 2
    requires ColorOf(Sub(t, Parent(p))) == Red
    requires ColorOf(Sub(t, Sibling(Parent(p)))) == Black
    requires Last(p) == Last(Parent(p))
    ensures var t1 := RotateAt(RecolorAt(RecolorAt(t, Parent(p), Black), Parent(Parent(p)), Red),
                               Parent(Parent(p)), Flip(Last(Parent(p))));
            && IsRB(t1) && InsertFixInv(t1, Parent(p))
            && ColorOf(Sub(t1, Parent(Parent(p)))) == Black
  {
    InsertFixRedParent(t, p);
    var gp := Parent(Parent(p));
    var a := Last(Parent(p));
    var g := Sub(t, gp);
    PathTwo(p);
    ReplaceSub(t, gp);
    assert gp + [] == gp;
    var g1 := RecolorAt(g, [a], Black);
    RecolorIn(t, gp, g, [a], Black);
    var g2 := RecolorAt(g1, [], Red);
    RecolorIn(t, gp, g1, [], Red);
    var g3 := RotateAt(g2, [], Flip(a));
    RotateIn(t, gp, g2, [], Flip(a));
    InsertLineLocal(g, a);
    AboveOkConcat(t, gp, [a, a]);
    BalancedSplit(t, gp, BH(t));
    LiftRB(t, gp, g3, BH(t));
    var t1 := Replace(t, gp, g3);
    SubIn(t, gp, g3, [a]);
    SubIn(t, gp, g3, []);
    SubOne(g3, a);
    ReplaceAt(t, gp, g3);
    SubConcat(t1, gp, [a]);
    InsertFixOfRB(t1, Parent(p));
  }

  // ---------------------------------------------------------------------
  // Erase fixup.

  /** The erase fixup's state: the subtree at `xp` is one BLACK short of what
      a tree of black height `h` needs there, and the only red-red edge there
      may be joins the node at `xp` to its parent. */
  predicate EraseFixInv(t: Tree, xp: seq<Dir>, h: int) {
    && ValidPath(t, xp) && DeficitAt(t, xp, h) && RedOkExceptAt(t, xp)
    && (xp != [] ==> ColorOf(t) == Black)
  }

  /** The same state seen from the parent `pn` of the deficient node, which is
      its child on side `d`; `hh` is the black height required of `pn`. */
  predicate Deficient(pn: Tree, d: Dir, hh: int) {
    pn.Node? && DeficitAt(pn, [d], hh) && AboveOk(pn, [d]) && ChildrenRedOk(Child(pn, d))
  }

  lemma DeficientFacts(pn: Tree, d: Dir, hh: int)
    requires pn.Node?
    ensures var x := Child(pn, d); var s := Child(pn, Flip(d));
            var h1 := hh - (if pn.c == Black then 1 else 0);
            Deficient(pn, d, hh) <==>
            (&& Balanced(x) && Balanced(s) && BH(x) + 1 == h1 && BH(s) == h1
             && RedOk(s) && (pn.c == Red ==> ColorOf(s) == Black) && ChildrenRedOk(x))
  {
    assert [d][0] == d && [d][1..] == [];
    SubOne(pn, d);
    var h1 := hh - (if pn.c == Black then 1 else 0);
    assert ReqH(pn, [d], hh) == h1;
    assert BalancedAbove(pn, [d], hh) <==> Balanced(Child(pn, Flip(d))) && BH(Child(pn, Flip(d))) == h1;
    assert AboveOk(pn, [d]) <==>
           RedOk(Child(pn, Flip(d))) && (pn.c == Red ==> ColorOf(Child(pn, Flip(d))) == Black);
  }

  /** The whole-tree state, cut at the deficient node's parent. */
  lemma EraseLocal(t: Tree, xp: seq<Dir>, h: int)
    requires EraseFixInv(t, xp, h) && xp != []
    ensures xp == Parent(xp) + [Last(xp)] && Sibling(xp) == Parent(xp) + [Flip(Last(xp))]
    ensures ValidPath(t, Parent(xp)) && ValidPath(t, Sibling(xp))
    ensures Deficient(Sub(t, Parent(xp)), Last(xp), ReqH(t, Parent(xp), h))
    ensures Sub(t, xp) == Child(Sub(t, Parent(xp)), Last(xp))
    ensures Sub(t, Sibling(xp)) == Child(Sub(t, Parent(xp)), Flip(Last(xp)))
    ensures Sub(t, Sibling(xp)).Node?
    ensures BalancedAbove(t, Parent(xp), h) && AboveOk(t, Parent(xp)) && EdgeOk(t, Parent(xp))
  {
    var pp := Parent(xp);
    var d := Last(xp);
    assert xp == pp + [d];
    SubParent(t, xp);
    SubAppend(t, pp, Flip(d));
    SubConcat(t, pp, [d]);
    AboveOkConcat(t, pp, [d]);
    BalancedAboveConcat(t, pp, [d], h);
    var pn := Sub(t, pp);
    SubOne(pn, d);
    DeficientFacts(pn, d, ReqH(t, pp, h));
  }

  /** A subtree with the same colour whose only defect is a deficient node at
      `r2` below it moves the erase fixup's state to `pp + r2`. */
  lemma LiftErase(t: Tree, xp: seq<Dir>, h: int, u: Tree, r2: seq<Dir>)
    requires EraseFixInv(t, xp, h) && xp != []
    requires ValidPath(u, r2) && DeficitAt(u, r2, ReqH(t, Parent(xp), h))
    requires AboveOk(u, r2) && ChildrenRedOk(Sub(u, r2))
    requires ColorOf(u) == ColorOf(Sub(t, Parent(xp)))
    ensures EraseFixInv(Replace(t, Parent(xp), u), Parent(xp) + r2, h)
    ensures Sub(Replace(t, Parent(xp), u), Parent(xp) + r2) == Sub(u, r2)
  {
    var pp := Parent(xp);
    EraseLocal(t, xp, h);
    var t' := Replace(t, pp, u);
    ReplaceAt(t, pp, u);
    SubConcat(t', pp, r2);
    BalancedAboveReplace(t, pp, u, h);
    BalancedAboveConcat(t', pp, r2, h);
    AboveOkReplace(t, pp, u);
    EdgeOkReplace(t, pp, u);
    AboveOkConcat(t', pp, r2);
    if pp != [] {
      ReplaceKeepsRoot(t, pp, u);
    }
  }

  /** A RED deficient node painted BLACK: the tree is valid again. */
  lemma EraseFixRed(t: Tree, xp: seq<Dir>, h: int)
    requires EraseFixInv(t, xp, h) && ColorOf(Sub(t, xp)) == Red
    ensures IsRB(RecolorAt(t, xp, Black)) && BH(RecolorAt(t, xp, Black)) == h
  {
    var x := Sub(t, xp);
    LiftRB(t, xp, Recolor(x, Black), h);
  }

  /** The deficient node is the root: painting it BLACK leaves a valid tree
      (its black height is simply one less), and a BLACK root is left as is. */
  lemma EraseFixRoot(t: Tree, h: int)
    requires EraseFixInv(t, [], h)
    ensures IsRB(RecolorAt(t, [], Black))
    ensures ColorOf(t) == Black ==> RecolorAt(t, [], Black) == t
  {
  }

  /** Case 2 (BLACK sibling with two BLACK children): the sibling turns RED
      and the parent becomes the deficient node; its colour is unchanged. */
  lemma EraseFixPushUp(t: Tree, xp: seq<Dir>, h: int)
    requires EraseFixInv(t, xp, h) && xp != []
    requires ColorOf(Sub(t, xp)) == Black
    requires Sub(t, Sibling(xp)).Node? && Sub(t, Sibling(xp)).c == Black
    requires ColorOf(Sub(t, Sibling(xp)).l) == Black && ColorOf(Sub(t, Sibling(xp)).r) == Black
    ensures var t1 := RecolorAt(t, Sibling(xp), Red);
            && EraseFixInv(t1, Parent(xp), h)
            && ColorOf(Sub(t1, Parent(xp))) == ColorOf(Sub(t, Parent(xp)))
            && EraseRankA(t1, Parent(xp)) < EraseRankA(t, xp)
  {
    EraseLocal(t, xp, h);
    var pp := Parent(xp);
    var d := Last(xp);
    var pn := Sub(t, pp);
    var hh := ReqH(t, pp, h);
    ReplaceSub(t, pp);
    RecolorIn(t, pp, pn, [Flip(d)], Red);
    RecolorAtOne(pn, Flip(d), Red);
    var u := SetChild(pn, Flip(d), Recolor(Child(pn, Flip(d)), Red));
    PushUpLocal(pn, d, hh);
    assert pp + [] == pp;
    LiftErase(t, xp, h, u, []);
  }

  /** Case 2 on the parent's subtree: with the sibling RED the whole
      subtree is one BLACK short, and no RED node has a RED child below its
      top. */
  lemma PushUpLocal(pn: Tree, d: Dir, hh: int)
    requires Deficient(pn, d, hh) && ColorOf(Child(pn, d)) == Black
    requires Child(pn, Flip(d)).Node? && Child(pn, Flip(d)).c == Black
    requires ColorOf(Child(pn, Flip(d)).l) == Black && ColorOf(Child(pn, Flip(d)).r) == Black
    ensures var u := SetChild(pn, Flip(d), Recolor(Child(pn, Flip(d)), Red));
            Balanced(u) && BH(u) + 1 == hh && ChildrenRedOk(u)
  {
    DeficientFacts(pn, d, hh);
    var u := SetChild(pn, Flip(d), Recolor(Child(pn, Flip(d)), Red));
    BHChild(Child(pn, Flip(d)), L);
    assert BH(Recolor(Child(pn, Flip(d)), Red)) + 1 == BH(Child(pn, Flip(d)));
    if d == L {
      assert RedOk(u.r);
    } else {
      assert RedOk(u.l);
    }
  }

  lemma RecolorAtTwo(t: Tree, a: Dir, b: Dir, c: Color)
    requires t.Node? && Child(t, a).Node? && Child(Child(t, a), b).Node?
    ensures RecolorAt(t, [a, b], c) ==
            SetChild(t, a, SetChild(Child(t, a), b, Recolor(Child(Child(t, a), b), c)))
  {
    SubOne(t, a);
    ReplaceSub(t, [a]);
    RecolorIn(t, [a], Child(t, a), [b], c);
    assert [a] + [b] == [a, b];
    RecolorAtOne(Child(t, a), b, c);
  }

  /** `exchange_color` below `q` in a tree whose subtree at `q` is `a`. */
  lemma ExchangeIn(t: Tree, q: seq<Dir>, a: Tree, r1: seq<Dir>, r2: seq<Dir>)
    requires ValidPath(t, q)
    ensures Exchange(Replace(t, q, a), q + r1, q + r2) == Replace(t, q, Exchange(a, r1, r2))
  {
    var t1 := Replace(t, q, a);
    SubIn(t, q, a, r1);
    SubIn(t, q, a, r2);
    var c2 := ColorOf(Sub(a, r2));
    RecolorIn(t, q, a, r1, c2);
    RecolorIn(t, q, RecolorAt(a, r1, c2), r2, ColorOf(Sub(a, r1)));
  }

  /** Measures of the `src` erase fixup's recursion: the first falls when the
      deficient node moves up (or turns out RED), the second when a case
      prepares a later one at the same place. */
  function EraseRankA(t: Tree, xp: seq<Dir>): nat {
    if ColorOf(Sub(t, xp)) == Red then 0
    else if xp == [] then 1
    else 1 + |xp| - (if ColorOf(Sub(t, Parent(xp))) == Red then 1 else 0)
  }

  function EraseRankB(t: Tree, xp: seq<Dir>): nat {
    if xp == [] then 0
    else
      var s := Sub(t, Sibling(xp));
      if ColorOf(s) == Red then 2
      else if s.Node? && ColorOf(Child(s, Last(xp))) == Red && ColorOf(Child(s, Flip(Last(xp)))) == Black then 1
      else 0
  }

  /** Case 1 at the parent: the RED sibling is lifted and the colours of
      sibling and parent swapped.  Both implementations' orders agree. */
  lemma EraseRotateRedLocal(pn: Tree, d: Dir, hh: int)
    requires Deficient(pn, d, hh) && ColorOf(Child(pn, Flip(d))) == Red
    ensures var u := Exchange(RotateAt(pn, [], d), [], [d]);
            && u == RotateAt(RecolorAt(RecolorAt(pn, [Flip(d)], Black), [], Red), [], d)
            && u.Node? && u.c == Black && u.c == pn.c
            && Child(u, d).Node? && Child(u, d).c == Red
            && Child(Child(u, d), d) == Child(pn, d)
            && Deficient(Child(u, d), d, hh - 1)
            && ColorOf(Child(Child(u, d), Flip(d))) == Black
            && Balanced(Child(u, Flip(d))) && BH(Child(u, Flip(d))) == hh - 1
            && RedOk(Child(u, Flip(d)))
  {
    DeficientFacts(pn, d, hh);
    var s := Child(pn, Flip(d));
    BHChild(s, L);
    BHChild(s, R);
    RotateAtRoot(pn, d);
    var r1 := Rot(pn, d);
    SubOne(r1, d);
    RecolorAtRoot(r1, Black);
    RecolorAtOne(Recolor(r1, Black), d, Red);
    var u := SetChild(Recolor(r1, Black), d, Recolor(Child(r1, d), Red));
    RecolorAtOne(pn, Flip(d), Black);
    RecolorAtRoot(SetChild(pn, Flip(d), Recolor(s, Black)), Red);
    RotateAtRoot(Recolor(SetChild(pn, Flip(d), Recolor(s, Black)), Red), d);
    DeficientFacts(Child(u, d), d, hh - 1);
  }

  /** The deficient node two levels below a BLACK node `u`. */
  lemma DeficientDown(u: Tree, d: Dir, hh: int)
    requires u.Node? && u.c == Black && Child(u, d).Node?
    requires Deficient(Child(u, d), d, hh - 1)
    requires Balanced(Child(u, Flip(d))) && BH(Child(u, Flip(d))) == hh - 1 && RedOk(Child(u, Flip(d)))
    ensures ValidPath(u, [d, d]) && Sub(u, [d, d]) == Child(Child(u, d), d)
    ensures DeficitAt(u, [d, d], hh) && AboveOk(u, [d, d]) && ChildrenRedOk(Sub(u, [d, d]))
  {
    SubTwo(u, d, d);
    assert [d, d][0] == d && [d, d][1..] == [d];
    assert [d][0] == d && [d][1..] == [];
    SubOne(Child(u, d), d);
  }

  /** Case 1 as `src` orders it (`rotate_L`/`rotate_R` on the sibling, then
      `exchange_color(sibling, parent)`): the deficient node is unchanged, one
      level lower, under a RED parent and with a BLACK sibling. */
  lemma EraseFixRotateRedSrc(t: Tree, xp: seq<Dir>, h: int)
    requires EraseFixInv(t, xp, h) && xp != []
    requires ColorOf(Sub(t, xp)) == Black && ColorOf(Sub(t, Sibling(xp))) == Red
    ensures var pp := Parent(xp); var d := Last(xp);
            var t1 := Exchange(RotateAt(t, pp, d), pp, pp + [d]);
            var xp1 := pp + [d, d];
            && Parent(xp1) == pp + [d] && Last(xp1) == d
            && EraseFixInv(t1, xp1, h) && Sub(t1, xp1) == Sub(t, xp)
            && ColorOf(Sub(t1, Parent(xp1))) == Red
            && ColorOf(Sub(t1, Sibling(xp1))) == Black
            && EraseRankA(t1, xp1) == EraseRankA(t, xp)
            && EraseRankB(t1, xp1) < EraseRankB(t, xp)
  {
    var pp := Parent(xp);
    var d := Last(xp);
    EraseLocal(t, xp, h);
    var pn := Sub(t, pp);
    var hh := ReqH(t, pp, h);
    EraseRotateRedLocal(pn, d, hh);
    ReplaceSub(t, pp);
    assert pp + [] == pp;
    var r1 := RotateAt(pn, [], d);
    RotateIn(t, pp, pn, [], d);
    ExchangeIn(t, pp, r1, [], [d]);
    var u := Exchange(r1, [], [d]);
    DeficientDown(u, d, hh);
    LiftErase(t, xp, h, u, [d, d]);
    var xp1 := pp + [d, d];
    assert xp1[..|xp1| - 1] == pp + [d];
    SubIn(t, pp, u, [d]);
    SubOne(u, d);
    assert Sibling(xp1) == pp + [d, Flip(d)];
    SubIn(t, pp, u, [d, Flip(d)]);
    SubTwo(u, d, Flip(d));
  }

  /** Case 1 as `practice` orders it (sibling BLACK, parent RED, rotate at
      the parent): the same outcome as in `src`. */
  lemma EraseFixRotateRedPractice(t: Tree, xp: seq<Dir>, h: int)
    requires EraseFixInv(t, xp, h) && xp != []
    requires ColorOf(Sub(t, xp)) == Black && ColorOf(Sub(t, Sibling(xp))) == Red
    ensures var pp := Parent(xp); var d := Last(xp);
            var t1 := RotateAt(RecolorAt(RecolorAt(t, Sibling(xp), Black), pp, Red), pp, d);
            var xp1 := pp + [d, d];
            && Parent(xp1) == pp + [d] && Last(xp1) == d
            && EraseFixInv(t1, xp1, h) && Sub(t1, xp1) == Sub(t, xp)
            && ColorOf(Sub(t1, Parent(xp1))) == Red
            && ColorOf(Sub(t1, Sibling(xp1))) == Black
  {
    var pp := Parent(xp);
    var d := Last(xp);
    EraseLocal(t, xp, h);
    var pn := Sub(t, pp);
    var hh := ReqH(t, pp, h);
    EraseRotateRedLocal(pn, d, hh);
    ReplaceSub(t, pp);
    assert pp + [] == pp;
    var q1 := RecolorAt(pn, [Flip(d)], Black);
    RecolorIn(t, pp, pn, [Flip(d)], Black);
    var q2 := RecolorAt(q1, [], Red);
    RecolorIn(t, pp, q1, [], Red);
    RotateIn(t, pp, q2, [], d);
    EraseFixRotateRedSrc(t, xp, h);
    ExchangeIn(t, pp, RotateAt(pn, [], d), [], [d]);
    RotateIn(t, pp, pn, [], d);
  }

  /** Case 3 at the sibling as `src` orders it (lift the near nephew, then
      `exchange_color(sibling, near)`): still BLACK, same black height, and
      now with a RED far child. */
  lemma EraseNearRedLocal(s: Tree, d: Dir)
    requires s.Node? && s.c == Black && RedOk(s) && Balanced(s)
    requires Child(s, d).Node? && Child(s, d).c == Red && ColorOf(Child(s, Flip(d))) == Black
    ensures var s3 := Exchange(RotateAt(s, [], Flip(d)), [Flip(d)], []);
            && s3.Node? && s3.c == Black && RedOk(s3) && Balanced(s3) && BH(s3) == BH(s)
            && Child(s3, Flip(d)).Node? && Child(s3, Flip(d)).c == Red
  {
    var n := Child(s, d);
    BHChild(s, d);
    BHChild(s, Flip(d));
    BHChild(n, L);
    BHChild(n, R);
    RotateAtRoot(s, Flip(d));
    var r1 := Rot(s, Flip(d));
    SubOne(r1, Flip(d));
    RecolorAtOne(r1, Flip(d), Red);
    var r2 := SetChild(r1, Flip(d), Recolor(Child(r1, Flip(d)), Red));
    RecolorAtRoot(r2, Black);
  }

  /** The state in which case 4 applies: a BLACK deficient node whose BLACK
      sibling has a RED far child.  The far child's own colour constraint is
      left open, since `practice` reaches this state through a case 3 that
      may leave a red-red edge just below it. */
  predicate FarRed(pn: Tree, d: Dir, hh: int) {
    && pn.Node? && Child(pn, Flip(d)).Node? && Child(Child(pn, Flip(d)), Flip(d)).Node?
    && var x := Child(pn, d);
       var s := Child(pn, Flip(d));
       var h1 := hh - (if pn.c == Black then 1 else 0);
       && ColorOf(x) == Black && Balanced(x) && BH(x) + 1 == h1 && ChildrenRedOk(x)
       && s.c == Black && Balanced(s) && BH(s) == h1
       && Child(s, Flip(d)).c == Red && RedOk(Child(s, d)) && ChildrenRedOk(Child(s, Flip(d)))
  }

  /** Whole-tree form of FarRed, cut at the parent of the node at `xp`. */
  predicate EraseFarRedAt(t: Tree, xp: seq<Dir>, h: int) {
    && xp != [] && ValidPath(t, Parent(xp)) && ColorOf(t) == Black
    && BalancedAbove(t, Parent(xp), h) && AboveOk(t, Parent(xp)) && EdgeOk(t, Parent(xp))
    && FarRed(Sub(t, Parent(xp)), Last(xp), ReqH(t, Parent(xp), h))
  }

  /** Case 4 at the parent; both implementations' orders agree, and the
      result is a valid subtree of the required black height and of the
      parent's colour. */
  lemma EraseFarRedLocal(pn: Tree, d: Dir, hh: int)
    requires FarRed(pn, d, hh)
    ensures var u := RecolorAt(Exchange(RotateAt(pn, [], d), [], [d]), [Flip(d)], Black);
            && u == RotateAt(RecolorAt(RecolorAt(RecolorAt(pn, [Flip(d)], ColorOf(pn)), [], Black),
                                       [Flip(d), Flip(d)], Black), [], d)
            && u.Node? && u.c == pn.c && RedOk(u) && Balanced(u) && BH(u) == hh
  {
    FarRedSrcShape(pn, d);
    FarRedPracticeShape(pn, d);
    FarRedShapeValid(pn, d, hh);
  }

  /** The subtree case 4 leaves: the sibling on top in the parent's colour,
      the parent below it on the deficient side, both BLACK, the far nephew
      BLACK on the other side. */
  function FarRedShape(pn: Tree, d: Dir): Tree
    requires pn.Node? && Child(pn, Flip(d)).Node? && Child(Child(pn, Flip(d)), Flip(d)).Node?
  {
    var s := Child(pn, Flip(d));
    var f := Child(s, Flip(d));
    if d == L then Node(pn.c, Node(Black, pn.l, pn.k, s.l, pn.id), s.k, f.(c := Black), s.id)
    else Node(pn.c, f.(c := Black), s.k, Node(Black, s.r, pn.k, pn.r, pn.id), s.id)
  }

  /** `src` order of case 4: rotate, exchange colours, paint the far nephew. */
  lemma FarRedSrcShape(pn: Tree, d: Dir)
    requires pn.Node? && Child(pn, Flip(d)).Node? && Child(Child(pn, Flip(d)), Flip(d)).Node?
    requires Child(pn, Flip(d)).c == Black
    ensures RecolorAt(Exchange(RotateAt(pn, [], d), [], [d]), [Flip(d)], Black) == FarRedShape(pn, d)
  {
    RotateAtRoot(pn, d);
    var r1 := Rot(pn, d);
    SubOne(r1, d);
    RecolorAtRoot(r1, pn.c);
    var r2 := Recolor(r1, pn.c);
    RecolorAtOne(r2, d, Black);
    var r3 := SetChild(r2, d, Recolor(Child(r2, d), Black));
    RecolorAtOne(r3, Flip(d), Black);
  }

  /** `practice` order of case 4: paint sibling, parent and far nephew, then
      rotate. */
  lemma FarRedPracticeShape(pn: Tree, d: Dir)
    requires pn.Node? && Child(pn, Flip(d)).Node? && Child(Child(pn, Flip(d)), Flip(d)).Node?
    ensures RotateAt(RecolorAt(RecolorAt(RecolorAt(pn, [Flip(d)], ColorOf(pn)), [], Black),
                               [Flip(d), Flip(d)], Black), [], d) == FarRedShape(pn, d)
  {
    var s := Child(pn, Flip(d));
    var q1 := SetChild(pn, Flip(d), Recolor(s, pn.c));
    RecolorAtOne(pn, Flip(d), pn.c);
    RecolorAtRoot(q1, Black);
    var q2 := Recolor(q1, Black);
    RecolorAtTwo(q2, Flip(d), Flip(d), Black);
    var q3 := SetChild(q2, Flip(d), SetChild(Child(q2, Flip(d)), Flip(d), Recolor(Child(s, Flip(d)), Black)));
    RotateAtRoot(q3, d);
  }

  /** The case 4 result is a valid subtree of the parent's colour and
      black-height. */
  lemma FarRedShapeValid(pn: Tree, d: Dir, hh: int)
    requires FarRed(pn, d, hh)
    ensures var u := FarRedShape(pn, d);
            u.Node? && u.c == pn.c && RedOk(u) && Balanced(u) && BH(u) == hh
  {
    var s := Child(pn, Flip(d));
    var f := Child(s, Flip(d));
    BHChild(s, d);
    BHChild(s, Flip(d));
    BHChild(f, L);
  }

  /** A BLACK deficient node with a BLACK sibling whose far child is RED is
      in the case 4 state. */
  lemma EraseFarRedOfInv(t: Tree, xp: seq<Dir>, h: int)
    requires EraseFixInv(t, xp, h) && xp != [] && ColorOf(Sub(t, xp)) == Black
    requires Sub(t, Sibling(xp)).Node? && Sub(t, Sibling(xp)).c == Black
    requires ColorOf(Child(Sub(t, Sibling(xp)), Flip(Last(xp)))) == Red
    ensures EraseFarRedAt(t, xp, h)
  {
    EraseLocal(t, xp, h);
    var pn := Sub(t, Parent(xp));
    var d := Last(xp);
    DeficientFacts(pn, d, ReqH(t, Parent(xp), h));
    var s := Child(pn, Flip(d));
    BHChild(s, L);
  }

  /** Case 4 as `src` orders it (`rotate_L`/`rotate_R` on the sibling,
      `exchange_color(sibling, parent)`, far nephew BLACK): valid again. */
  lemma EraseFixFarRedSrc(t: Tree, xp: seq<Dir>, h: int)
    requires EraseFarRedAt(t, xp, h)
    ensures var pp := Parent(xp); var d := Last(xp);
            IsRB(RecolorAt(Exchange(RotateAt(t, pp, d), pp, pp + [d]), pp + [Flip(d)], Black))
  {
    var pp := Parent(xp);
    var d := Last(xp);
    var pn := Sub(t, pp);
    var hh := ReqH(t, pp, h);
    EraseFarRedLocal(pn, d, hh);
    ReplaceSub(t, pp);
    assert pp + [] == pp;
    var r1 := RotateAt(pn, [], d);
    RotateIn(t, pp, pn, [], d);
    ExchangeIn(t, pp, r1, [], [d]);
    var r2 := Exchange(r1, [], [d]);
    RecolorIn(t, pp, r2, [Flip(d)], Black);
    LiftRB(t, pp, RecolorAt(r2, [Flip(d)], Black), h);
  }

  /** Case 4 as `practice` orders it (sibling takes the parent's colour,
      parent and far nephew BLACK, rotate at the parent): valid again. */
  lemma EraseFixFarRedPractice(t: Tree, xp: seq<Dir>, h: int)
    requires EraseFarRedAt(t, xp, h)
    ensures var pp := Parent(xp); var d := Last(xp);
            var t1 := RecolorAt(t, Sibling(xp), ColorOf(Sub(t, pp)));
            var t2 := RecolorAt(t1, pp, Black);
            IsRB(RotateAt(RecolorAt(t2, Sibling(xp) + [Flip(d)], Black), pp, d))
  {
    var pp := Parent(xp);
    var d := Last(xp);
    var pn := Sub(t, pp);
    var hh := ReqH(t, pp, h);
    EraseFarRedLocal(pn, d, hh);
    ReplaceSub(t, pp);
    assert pp + [] == pp;
    assert Sibling(xp) == pp + [Flip(d)];
    assert Sibling(xp) + [Flip(d)] == pp + [Flip(d), Flip(d)];
    var q1 := RecolorAt(pn, [Flip(d)], ColorOf(pn));
    RecolorIn(t, pp, pn, [Flip(d)], ColorOf(pn));
    var q2 := RecolorAt(q1, [], Black);
    RecolorIn(t, pp, q1, [], Black);
    var q3 := RecolorAt(q2, [Flip(d), Flip(d)], Black);
    RecolorIn(t, pp, q2, [Flip(d), Flip(d)], Black);
    RotateIn(t, pp, q3, [], d);
    LiftRB(t, pp, RotateAt(q3, [], d), h);
  }

  /** Case 3 as `src` orders it, seen from the parent: the deficient side is
      untouched and the sibling, still BLACK, now has a RED far child. */
  lemma EraseNearRedParent(pn: Tree, d: Dir, hh: int)
    requires Deficient(pn, d, hh) && ColorOf(Child(pn, d)) == Black
    requires Child(pn, Flip(d)).Node? && Child(pn, Flip(d)).c == Black
    requires ColorOf(Child(Child(pn, Flip(d)), d)) == Red
    requires ColorOf(Child(Child(pn, Flip(d)), Flip(d))) == Black
    ensures var s3 := Exchange(RotateAt(Child(pn, Flip(d)), [], Flip(d)), [Flip(d)], []);
            var u := SetChild(pn, Flip(d), s3);
            && Deficient(u, d, hh) && u.c == pn.c && Child(u, d) == Child(pn, d)
            && s3.Node? && s3.c == Black && ColorOf(Child(s3, Flip(d))) == Red
  {
    DeficientFacts(pn, d, hh);
    EraseNearRedLocal(Child(pn, Flip(d)), d);
    var s3 := Exchange(RotateAt(Child(pn, Flip(d)), [], Flip(d)), [Flip(d)], []);
    DeficientFacts(SetChild(pn, Flip(d), s3), d, hh);
  }

  /** Case 3 as `src` orders it: the deficient node and its parent are
      untouched, and the sibling now has a RED far child, so case 4 follows. */
  lemma EraseFixNearRedSrc(t: Tree, xp: seq<Dir>, h: int)
    requires EraseFixInv(t, xp, h) && xp != [] && ColorOf(Sub(t, xp)) == Black
    requires Sub(t, Sibling(xp)).Node? && Sub(t, Sibling(xp)).c == Black
    requires ColorOf(Child(Sub(t, Sibling(xp)), Last(xp))) == Red
    requires ColorOf(Child(Sub(t, Sibling(xp)), Flip(Last(xp)))) == Black
    ensures var sib := Sibling(xp); var d := Last(xp);
            var t1 := Exchange(RotateAt(t, sib, Flip(d)), sib + [Flip(d)], sib);
            && EraseFixInv(t1, xp, h) && Sub(t1, xp) == Sub(t, xp)
            && ColorOf(Sub(t1, Parent(xp))) == ColorOf(Sub(t, Parent(xp)))
            && Sub(t1, sib).Node? && Sub(t1, sib).c == Black
            && ColorOf(Child(Sub(t1, sib), Flip(d))) == Red
            && EraseRankA(t1, xp) == EraseRankA(t, xp)
            && EraseRankB(t1, xp) < EraseRankB(t, xp)
  {
    var pp := Parent(xp);
    var d := Last(xp);
    var sib := Sibling(xp);
    EraseLocal(t, xp, h);
    var pn := Sub(t, pp);
    var hh := ReqH(t, pp, h);
    var s := Sub(t, sib);
    EraseNearRedParent(pn, d, hh);
    var s3 := Exchange(RotateAt(s, [], Flip(d)), [Flip(d)], []);
    var u := SetChild(pn, Flip(d), s3);
    var t1 := Replace(t, pp, u);
    assert t1 == Exchange(RotateAt(t, sib, Flip(d)), sib + [Flip(d)], sib) by {
      ReplaceSub(t, sib);
      assert sib + [] == sib;
      RotateIn(t, sib, s, [], Flip(d));
      ExchangeIn(t, sib, RotateAt(s, [], Flip(d)), [Flip(d)], []);
      ReplaceConcat(t, pp, [Flip(d)], s3);
      SubOne(pn, Flip(d));
    }
    assert [d][0] == d && [d][1..] == [];
    SubOne(u, d);
    LiftErase(t, xp, h, u, [d]);
    SubIn(t, pp, u, []);
    assert pp + [] == pp;
    SubIn(t, pp, u, [Flip(d)]);
    SubOne(u, Flip(d));
  }

  /** Case 3 at the sibling as `practice` orders it (near nephew BLACK,
      sibling RED, rotate at the sibling): BLACK again, same black height,
      with a RED far child whose own children are valid. */
  lemma EraseNearRedPracticeLocal(s: Tree, d: Dir)
    requires s.Node? && s.c == Black && RedOk(s) && Balanced(s)
    requires Child(s, d).Node? && Child(s, d).c == Red
    ensures var s3 := RotateAt(RecolorAt(RecolorAt(s, [d], Black), [], Red), [], Flip(d));
            && s3.Node? && s3.c == Black && Balanced(s3) && BH(s3) == BH(s)
            && Child(s3, Flip(d)).Node? && Child(s3, Flip(d)).c == Red
            && RedOk(Child(s3, d)) && ChildrenRedOk(Child(s3, Flip(d)))
  {
    var n := Child(s, d);
    BHChild(s, d);
    BHChild(s, Flip(d));
    BHChild(n, L);
    BHChild(n, R);
    var q1 := RecolorAt(s, [d], Black);
    RecolorAtOne(s, d, Black);
    var q2 := RecolorAt(q1, [], Red);
    RecolorAtRoot(q1, Red);
    RotateAtRoot(q2, Flip(d));
  }

  /** Case 3 as `practice` orders it, taken whenever the near nephew is RED:
      the case 4 state follows, with the deficient node untouched. */
  lemma EraseFixNearRedPractice(t: Tree, xp: seq<Dir>, h: int)
    requires EraseFixInv(t, xp, h) && xp != [] && ColorOf(Sub(t, xp)) == Black
    requires Sub(t, Sibling(xp)).Node? && Sub(t, Sibling(xp)).c == Black
    requires ColorOf(Child(Sub(t, Sibling(xp)), Last(xp))) == Red
    ensures var sib := Sibling(xp); var d := Last(xp);
            var t1 := RotateAt(RecolorAt(RecolorAt(t, sib + [d], Black), sib, Red), sib, Flip(d));
            && EraseFarRedAt(t1, xp, h) && Sub(t1, xp) == Sub(t, xp)
            && ValidPath(t1, xp) && Sub(t1, Sibling(xp)) == Child(Sub(t1, Parent(xp)), Flip(d))
  {
    var pp := Parent(xp);
    var d := Last(xp);
    var sib := Sibling(xp);
    EraseLocal(t, xp, h);
    var pn := Sub(t, pp);
    var hh := ReqH(t, pp, h);
    DeficientFacts(pn, d, hh);
    var s := Sub(t, sib);
    EraseNearRedPracticeLocal(s, d);
    var s3 := RotateAt(RecolorAt(RecolorAt(s, [d], Black), [], Red), [], Flip(d));
    var u := SetChild(pn, Flip(d), s3);
    var t1 := Replace(t, pp, u);
    assert t1 == RotateAt(RecolorAt(RecolorAt(t, sib + [d], Black), sib, Red), sib, Flip(d)) by {
      ReplaceSub(t, sib);
      assert sib + [] == sib;
      RecolorIn(t, sib, s, [d], Black);
      RecolorIn(t, sib, RecolorAt(s, [d], Black), [], Red);
      RotateIn(t, sib, RecolorAt(RecolorAt(s, [d], Black), [], Red), [], Flip(d));
      ReplaceConcat(t, pp, [Flip(d)], s3);
      SubOne(pn, Flip(d));
    }
    assert FarRed(u, d, hh);
    ReplaceAt(t, pp, u);
    BalancedAboveReplace(t, pp, u, h);
    AboveOkReplace(t, pp, u);
    EdgeOkReplace(t, pp, u);
    if pp != [] {
      ReplaceKeepsRoot(t, pp, u);
    }
    assert pp + [d] == xp;
    SubIn(t, pp, u, [d]);
    SubOne(u, d);
    SubConcat(t1, pp, [d]);
    SubParent(t1, xp);
    SubIn(t, pp, u, [Flip(d)]);
    SubOne(u, Flip(d));
  }
}
