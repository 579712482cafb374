// Positions in a tree, named by the left/right steps from the root: the
// value-level counterpart of holding a `node_t *` into the structure.

module RbPaths {
  import opened RbSpec

  /** Every step but possibly the last lands on a node; the position reached
      may be the sentinel. */
  predicate ValidPath(t: Tree, p: seq<Dir>)
    decreases p
  {
    p == [] || (t.Node? && ValidPath(Child(t, p[0]), p[1..]))
  }

  /** The subtree at position `p` (the sentinel past the end of the tree). */
  function Sub(t: Tree, p: seq<Dir>): Tree
    decreases p
  {
    if p == [] || t.Leaf? then t else Sub(Child(t, p[0]), p[1..])
  }

  /** `t` with the subtree at position `p` replaced by `u` (unchanged when
      `p` runs past the end of the tree). */
  function Replace(t: Tree, p: seq<Dir>, u: Tree): Tree
    decreases p
  {
    if p == [] then u
    else if t.Leaf? then t
    else if p[0] == L then t.(l := Replace(t.l, p[1..], u))
    else t.(r := Replace(t.r, p[1..], u))
  }

  function Parent(p: seq<Dir>): seq<Dir>
    requires p != []
  {
    p[..|p| - 1]
  }

  function Last(p: seq<Dir>): Dir
    requires p != []
  {
    p[|p| - 1]
  }

  /** In-order keys that come before the subtree at `p`. */
  function Before(t: Tree, p: seq<Dir>): seq<Key>
    decreases p
  {
    if p == [] || t.Leaf? then []
    else if p[0] == L then Before(t.l, p[1..])
    else InOrder(t.l) + [t.k] + Before(t.r, p[1..])
  }

  /** In-order keys that come after the subtree at `p`. */
  function After(t: Tree, p: seq<Dir>): seq<Key>
    decreases p
  {
    if p == [] || t.Leaf? then []
    else if p[0] == L then After(t.l, p[1..]) + [t.k] + InOrder(t.r)
    else After(t.r, p[1..])
  }

  lemma {:induction false} InOrderSplit(t: Tree, p: seq<Dir>)
    requires ValidPath(t, p)
    ensures InOrder(t) == Before(t, p) + InOrder(Sub(t, p)) + After(t, p)
    decreases p
  {
    if p != [] {
      var q := p[1..];
      InOrderSplit(Child(t, p[0]), q);
      assert Sub(t, p) == Sub(Child(t, p[0]), q);
      if p[0] == L {
        RegroupLeft(InOrder(t), InOrder(t.l), t.k, InOrder(t.r), Before(t.l, q), InOrder(Sub(t, p)), After(t.l, q));
      } else {
        RegroupRight(InOrder(t), InOrder(t.l), t.k, InOrder(t.r), Before(t.r, q), InOrder(Sub(t, p)), After(t.r, q));
      }
    }
  }

  /** Splitting the left part of `l + [k] + r` into `b + m + a`. */
  lemma RegroupLeft<T>(s: seq<T>, l: seq<T>, k: T, r: seq<T>, b: seq<T>, m: seq<T>, a: seq<T>)
    requires s == l + [k] + r && l == b + m + a
    ensures s == b + m + (a + [k] + r)
  {
  }

  /** Splitting the right part of `l + [k] + r` into `b + m + a`. */
  lemma RegroupRight<T>(s: seq<T>, l: seq<T>, k: T, r: seq<T>, b: seq<T>, m: seq<T>, a: seq<T>)
    requires s == l + [k] + r && r == b + m + a
    ensures s == (l + [k] + b) + m + a
  {
  }

  lemma {:induction false} ReplaceAt(t: Tree, p: seq<Dir>, u: Tree)
    requires ValidPath(t, p)
    ensures ValidPath(Replace(t, p, u), p)
    ensures Sub(Replace(t, p, u), p) == u
    decreases p
  {
    if p != [] {
      ReplaceAt(Child(t, p[0]), p[1..], u);
    }
  }

  lemma {:induction false} ReplaceContext(t: Tree, p: seq<Dir>, u: Tree)
    requires ValidPath(t, p)
    ensures ValidPath(Replace(t, p, u), p)
    ensures Before(Replace(t, p, u), p) == Before(t, p)
    ensures After(Replace(t, p, u), p) == After(t, p)
    decreases p
  {
    ReplaceAt(t, p, u);
    if p != [] {
      ReplaceContext(Child(t, p[0]), p[1..], u);
    }
  }

  /** Replacing a subtree leaves the rest of the tree, and the rest of the
      in-order sequence, as it was. */
  lemma ReplaceFacts(t: Tree, p: seq<Dir>, u: Tree)
    requires ValidPath(t, p)
    ensures ValidPath(Replace(t, p, u), p)
    ensures Sub(Replace(t, p, u), p) == u
    ensures Before(Replace(t, p, u), p) == Before(t, p)
    ensures After(Replace(t, p, u), p) == After(t, p)
    ensures InOrder(Replace(t, p, u)) == Before(t, p) + InOrder(u) + After(t, p)
  {
    ReplaceAt(t, p, u);
    ReplaceContext(t, p, u);
    InOrderSplit(Replace(t, p, u), p);
  }

  /** A subtree swapped for one with the same in-order keys keeps the whole
      tree's in-order keys. */
  lemma InOrderReplace(t: Tree, p: seq<Dir>, u: Tree)
    requires ValidPath(t, p)
    requires InOrder(u) == InOrder(Sub(t, p))
    ensures InOrder(Replace(t, p, u)) == InOrder(t)
  {
    InOrderSplit(t, p);
    ReplaceFacts(t, p, u);
  }

  /** A position holding a node is reached by a valid path. */
  lemma {:induction false} SubNodeValid(t: Tree, p: seq<Dir>)
    requires Sub(t, p).Node?
    ensures ValidPath(t, p)
    decreases p
  {
    if p != [] {
      SubNodeValid(Child(t, p[0]), p[1..]);
    }
  }

  lemma {:induction false} SubConcat(t: Tree, q: seq<Dir>, r: seq<Dir>)
    ensures ValidPath(t, q + r) <==> ValidPath(t, q) && ValidPath(Sub(t, q), r)
    ensures Sub(t, q + r) == Sub(Sub(t, q), r)
    decreases q
  {
    if q != [] {
      assert (q + r)[0] == q[0];
      assert (q + r)[1..] == q[1..] + r;
      if t.Node? {
        SubConcat(Child(t, q[0]), q[1..], r);
      } else {
        assert Sub(t, q) == t;
        SubLeaf(r);
      }
    } else {
      assert q + r == r;
    }
  }

  lemma {:induction false} SubLeaf(r: seq<Dir>)
    ensures Sub(Leaf, r) == Leaf
    ensures ValidPath(Leaf, r) <==> r == []
  {
  }

  lemma SubAppend(t: Tree, p: seq<Dir>, d: Dir)
    requires ValidPath(t, p) && Sub(t, p).Node?
    ensures ValidPath(t, p + [d])
    ensures Sub(t, p + [d]) == Child(Sub(t, p), d)
    ensures Parent(p + [d]) == p && Last(p + [d]) == d
  {
    SubConcat(t, p, [d]);
    assert (p + [d])[..|p|] == p;
    assert [d][1..] == [];
  }

  /** The parent of a path extended by a non-empty path. */
  lemma ParentConcat(q: seq<Dir>, r: seq<Dir>)
    requires r != []
    ensures Parent(q + r) == q + Parent(r) && Last(q + r) == Last(r)
  {
    assert (q + r)[..|q + r| - 1] == q + r[..|r| - 1];
  }

  lemma SubParent(t: Tree, p: seq<Dir>)
    requires p != [] && ValidPath(t, p)
    ensures ValidPath(t, Parent(p)) && Sub(t, Parent(p)).Node?
    ensures Sub(t, p) == Child(Sub(t, Parent(p)), Last(p))
  {
    assert p == Parent(p) + [Last(p)];
    SubConcat(t, Parent(p), [Last(p)]);
    assert [Last(p)][1..] == [];
  }

  lemma {:induction false} ReplaceConcat(t: Tree, q: seq<Dir>, r: seq<Dir>, v: Tree)
    ensures Replace(t, q + r, v) == Replace(t, q, Replace(Sub(t, q), r, v))
    decreases q
  {
    if q != [] {
      assert (q + r)[0] == q[0];
      assert (q + r)[1..] == q[1..] + r;
      if t.Node? {
        ReplaceConcat(Child(t, q[0]), q[1..], r, v);
      }
    } else {
      assert q + r == r;
    }
  }

  lemma {:induction false} ReplaceReplace(t: Tree, p: seq<Dir>, u: Tree, v: Tree)
    ensures Replace(Replace(t, p, u), p, v) == Replace(t, p, v)
    decreases p
  {
    if p != [] && t.Node? {
      ReplaceReplace(Child(t, p[0]), p[1..], u, v);
    }
  }

  lemma {:induction false} ReplaceSub(t: Tree, p: seq<Dir>)
    ensures Replace(t, p, Sub(t, p)) == t
    decreases p
  {
    if p != [] && t.Node? {
      ReplaceSub(Child(t, p[0]), p[1..]);
    }
  }

  /** Replacing deeper than `q` changes the subtree at `q` only below its root. */
  lemma ReplaceBelow(t: Tree, q: seq<Dir>, r: seq<Dir>, v: Tree)
    requires ValidPath(t, q)
    ensures ValidPath(Replace(t, q + r, v), q)
    ensures Sub(Replace(t, q + r, v), q) == Replace(Sub(t, q), r, v)
  {
    ReplaceConcat(t, q, r, v);
    ReplaceAt(t, q, Replace(Sub(t, q), r, v));
  }

  /** A replacement on a path that only passes through `q` leaves the
      replaced subtree's surroundings in place: validity of `q` is kept. */
  lemma {:induction false} ReplaceKeepsValid(t: Tree, q: seq<Dir>, p: seq<Dir>, u: Tree)
    requires ValidPath(t, q) && ValidPath(t, p)
    requires |p| >= |q| && p[..|q|] == q && (|p| > |q| ==> Sub(t, q).Node?)
    ensures ValidPath(Replace(t, p, u), q)
    decreases q
  {
    if q != [] {
      assert p[0] == q[0];
      assert p[1..][..|q| - 1] == q[1..];
      ReplaceKeepsValid(Child(t, q[0]), q[1..], p[1..], u);
    }
  }

  /** Which nodes a replacement removes and adds. */
  lemma {:induction false} IdsReplace(t: Tree, p: seq<Dir>, u: Tree)
    requires ValidPath(t, p) && Distinct(t)
    ensures Ids(Replace(t, p, u)) == (Ids(t) - Ids(Sub(t, p))) + Ids(u)
    ensures Ids(Sub(t, p)) <= Ids(t) && Distinct(Sub(t, p))
    ensures Distinct(u) && Ids(u) !! (Ids(t) - Ids(Sub(t, p))) ==> Distinct(Replace(t, p, u))
    decreases p
  {
    if p != [] {
      IdsReplace(Child(t, p[0]), p[1..], u);
    }
  }

  /** A replacement at `p` leaves every position that is not at or below
      `p` in place, with the same node on top; a position beside `p` keeps
      its whole subtree. */
  lemma {:induction false} ReplaceOff(t: Tree, p: seq<Dir>, u: Tree, q: seq<Dir>)
    requires ValidPath(t, p) && ValidPath(t, q) && !(p <= q)
    ensures ValidPath(Replace(t, p, u), q)
    ensures IdOf(Sub(Replace(t, p, u), q)) == IdOf(Sub(t, q))
    ensures ColorOf(Sub(Replace(t, p, u), q)) == ColorOf(Sub(t, q))
    ensures Sub(Replace(t, p, u), q).Node? == Sub(t, q).Node?
    ensures Sub(t, q).Node? ==> Sub(Replace(t, p, u), q).k == Sub(t, q).k
    ensures !(q <= p) ==> Sub(Replace(t, p, u), q) == Sub(t, q)
    decreases q
  {
    if q != [] {
      assert p != [];
      var q' := q[1..];
      var p' := p[1..];
      if p[0] == q[0] {
        assert p <= q <==> p' <= q';
        assert q <= p <==> q' <= p';
        ReplaceOff(Child(t, q[0]), p', u, q');
      }
    }
  }
}
