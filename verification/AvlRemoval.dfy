/** What removal does to shapes and paths: the neighbouring node takes the removed node's place. */
module AvlRemoval {
  import opened AvlShapes

  /** Every hole of the path is on side `d`. */
  ghost predicate AllSide(c: Path, d: Side) {
    c.At? ==> c.side == d && AllSide(c.up, d)
  }

  ghost function Bottom(c: Path): Node
    requires c.At?
  {
    if c.up.At? then Bottom(c.up) else c.node
  }

  lemma {:induction false} JoinOrder(inner: Path, outer: Path)
    ensures Before(Join(inner, outer)) == Before(outer) + Before(inner)
    ensures After(Join(inner, outer)) == After(inner) + After(outer)
  {
    if inner.At? {
      JoinOrder(inner.up, outer);
    }
  }

  lemma {:induction false} JoinNodes(inner: Path, outer: Path)
    ensures PathNodes(Join(inner, outer)) == PathNodes(inner) + PathNodes(outer)
  {
    if inner.At? {
      JoinNodes(inner.up, outer);
    }
  }

  lemma {:induction false} OneSided(c: Path, d: Side)
    requires AllSide(c, d)
    ensures d.Left? ==> Before(c) == []
    ensures d.Right? ==> After(c) == []
  {
    if c.At? {
      OneSided(c.up, d);
    }
  }

  lemma {:induction false} ApartSubset(c: Path, s: set<Node>, t: set<Node>)
    requires Apart(c, s) && t <= s
    ensures Apart(c, t)
  {
    if c.At? {
      ApartSubset(c.up, s + {c.node} + Nodes(c.sibling), t + {c.node} + Nodes(c.sibling));
    }
  }

  /** `swap`, cut out of the filling, may stand where `node` stood on the path. */
  lemma {:induction false} ApartSwapped(inner: Path, d: Side, node: Node, swap: Node, sibling: Shape,
                                        c: Path, s: set<Node>)
    requires Apart(Join(inner, At(d, node, sibling, c)), s) && swap in s
    ensures Apart(Join(inner, At(d, swap, sibling, c)), s - {swap})
  {
    if inner.At? {
      var grow := {inner.node} + Nodes(inner.sibling);
      assert s + {inner.node} + Nodes(inner.sibling) == s + grow;
      ApartSwapped(inner.up, d, node, swap, sibling, c, s + {inner.node} + Nodes(inner.sibling));
      assert s + {inner.node} + Nodes(inner.sibling) - {swap} ==
             s - {swap} + {inner.node} + Nodes(inner.sibling);
    } else {
      ApartSubset(c, s + {node} + Nodes(sibling), s - {swap} + {swap} + Nodes(sibling));
    }
  }

  lemma {:induction false} NearSwapped(inner: Path, d: Side, node: Node, swap: Node, sibling: Shape,
                                       c: Path, h: int)
    requires PathNear(Join(inner, At(d, node, sibling, c)), h)
    ensures PathNear(Join(inner, At(d, swap, sibling, c)), h)
  {
    if inner.At? {
      NearSwapped(inner.up, d, node, swap, sibling, c, 1 + Max(h, H(inner.sibling)));
    }
  }

  lemma Regroup(a: seq<Node>, b: seq<Node>, x: seq<Node>, m: seq<Node>, r: seq<Node>, e: seq<Node>)
    ensures a + b + x + (m + r + e) == (a + (b + x + m)) + (r + e)
    ensures a + r + m + x + (b + e) == (a + r) + ((m + x + b) + e)
  {
  }

  /** In-order, the swap closes exactly the gap that the removed node leaves. */
  lemma SwapOrder(inner: Path, d: Side, f: Shape, x: Shape, swap: Node, c: Path)
    requires f.Bin? && AllSide(inner, d.Other())
    requires Before(inner) + InOrder(Mk(d, x, swap, Nil)) + After(inner) == InOrder(Sub(f, d))
    ensures var c' := Join(inner, At(d, swap, Sub(f, d.Other()), c));
            Before(c') + InOrder(x) + After(c') ==
            (Before(c) + InOrder(f.left)) + (InOrder(f.right) + After(c))
  {
    JoinOrder(inner, At(d, swap, Sub(f, d.Other()), c));
    OneSided(inner, d.Other());
    if d.Left? {
      SwapOrderLeft(inner, f, x, swap, c);
    } else {
      SwapOrderRight(inner, f, x, swap, c);
    }
  }

  lemma SwapOrderLeft(inner: Path, f: Shape, x: Shape, swap: Node, c: Path)
    requires f.Bin? && After(inner) == []
    requires Before(inner) + InOrder(Bin(x, swap, Nil)) + After(inner) == InOrder(f.left)
    ensures Before(c) + Before(inner) + InOrder(x) + ([swap] + InOrder(f.right) + After(c)) ==
            (Before(c) + InOrder(f.left)) + (InOrder(f.right) + After(c))
  {
    assert InOrder(f.left) == Before(inner) + InOrder(x) + [swap];
    Regroup(Before(c), Before(inner), InOrder(x), [swap], InOrder(f.right), After(c));
  }

  lemma SwapOrderRight(inner: Path, f: Shape, x: Shape, swap: Node, c: Path)
    requires f.Bin? && Before(inner) == []
    requires Before(inner) + InOrder(Bin(Nil, swap, x)) + After(inner) == InOrder(f.right)
    ensures Before(c) + InOrder(f.left) + [swap] + InOrder(x) + (After(inner) + After(c)) ==
            (Before(c) + InOrder(f.left)) + (InOrder(f.right) + After(c))
  {
    assert InOrder(f.right) == [swap] + InOrder(x) + After(inner);
    Regroup(Before(c), After(inner), InOrder(x), [swap], InOrder(f.left), After(c));
  }

  // ---------------------------------------------------------------- links

  /** Everything a regraft of a path is about; `root0` and `root` are the root pointer before and after. */
  datatype Graft = Graft(inner: Path, side: Side, node: Node, swap: Node, sibling: Shape, c: Path,
                         root0: Node?, root: Node?)
  {
    ghost function Old(): Path { Join(inner, At(side, node, sibling, c)) }
    ghost function New(): Path { Join(inner, At(side, swap, sibling, c)) }
  }

  lemma {:induction false} BottomOf(c: Path, s: set<Node>)
    requires c.At? && Apart(c, s)
    ensures Bottom(c) in PathNodes(c) && Bottom(c) !in s
    ensures c.up.At? ==> Bottom(c) in PathNodes(c.up) && Bottom(c) != c.node
    ensures Bottom(c) !in Nodes(c.sibling)
  {
    if c.up.At? {
      BottomOf(c.up, s + {c.node} + Nodes(c.sibling));
    }
  }

  /** The inner part of the path stays linked when its bottom node is hung below `swap`. */
  twostate lemma {:induction false} Regraft(g: Graft)
    requires g.inner.At? && Apart(g.inner, {})
    requires old(Linked(g.Old(), g.inner.node, g.root0))
    requires Linked(At(g.side, g.swap, g.sibling, g.c), g.swap, g.root)
    requires g.swap.Child(g.side) == old(g.node.Child(g.side))
    requires old(allocated(PathNodes(g.inner)))
    requires forall o: Node | o in PathNodes(g.inner) && o != Bottom(g.inner) :: unchanged(o)
    requires var b := Bottom(g.inner);
             old(allocated(b)) && b.left == old(b.left) && b.right == old(b.right) && b.parent == g.swap
    ensures Linked(g.New(), g.inner.node, g.root)
    decreases g.inner
  {
    var c := g.inner;
    BottomOf(c, {});
    assert {} + {c.node} + Nodes(c.sibling) == {c.node} + Nodes(c.sibling);
    ApartSubset(c.up, {c.node} + Nodes(c.sibling), {});
    Untouched(Spot(c.sibling, old(c.node.Child(c.side.Other())), c.node));
    if c.up.At? {
      Regraft(g.(inner := c.up));
    } else {
      var was, now := At(g.side, g.node, g.sibling, g.c), At(g.side, g.swap, g.sibling, g.c);
      assert Join(c.up, was) == was && Join(c.up, now) == now;
      assert old(Hole(At(g.side, g.node, g.sibling, g.c), g.root0)) == c.node;
      assert Hole(At(g.side, g.swap, g.sibling, g.c), g.root) == c.node;
    }
  }

  lemma {:induction false} JoinLinked(inner: Path, base: Path, p: Node?, root: Node?)
    requires base.At? && Linked(Join(inner, base), p, root)
    ensures Linked(base, base.node, root)
    ensures inner.Top? ==> p == base.node
    ensures inner.At? ==> p == inner.node && Hole(base, root) == Bottom(inner) &&
                          Bottom(inner).parent == base.node
  {
    if inner.At? {
      JoinLinked(inner.up, base, inner.node.parent, root);
    }
  }

  lemma {:induction false} JoinApart(inner: Path, base: Path, s: set<Node>)
    requires Apart(Join(inner, base), s)
    ensures Apart(inner, s) && Apart(base, s + PathNodes(inner))
  {
    if inner.At? {
      JoinApart(inner.up, base, s + {inner.node} + Nodes(inner.sibling));
      assert s + {inner.node} + Nodes(inner.sibling) + PathNodes(inner.up) == s + PathNodes(inner);
    } else {
      assert s + PathNodes(inner) == s;
    }
  }

  /** None of the nodes around `node` that a takeover writes to is another one of them. */
  lemma Around(node: Node, d: Side, sibling: Shape, c: Path, root: Node?, r: set<Node>)
    requires Linked(At(d, node, sibling, c), node, root)
    requires Apart(At(d, node, sibling, c), r)
    requires node.Child(d) != null ==> node.Child(d) in r
    ensures var other, p := node.Child(d.Other()), node.parent;
            && node !in r && node !in Nodes(sibling) && node !in PathNodes(c)
            && Nodes(sibling) !! r && PathNodes(c) !! r && PathNodes(c) !! Nodes(sibling)
            && (other != null ==> other in Nodes(sibling))
            && (p != null ==> p in PathNodes(c) && c.At? && p == c.node && (p.left == node || p.right == node))
            && (p == null ==> c.Top? && root == node)
            && Apart(c, r + {node} + Nodes(sibling))
            && Linked(c, p, root) && Sound(sibling, other, node) && Distinct(sibling)
  {
    ApartDisjoint(c, r + {node} + Nodes(sibling));
  }

  /** What a takeover writes to lies outside `x` and, but for the bottom node, outside `inner`. */
  lemma FarFacts(node: Node, d: Side, inner: Path, sibling: Shape, c: Path, root: Node?, s: set<Node>)
    requires inner.At? && Linked(Join(inner, At(d, node, sibling, c)), inner.node, root)
    requires Apart(Join(inner, At(d, node, sibling, c)), s)
    ensures var base, low, other := At(d, node, sibling, c), Bottom(inner), node.Child(d.Other());
            && Linked(base, node, root) && node.Child(d) == low
            && Apart(base, s + PathNodes(inner)) && Apart(inner, {})
            && low in PathNodes(inner) && low !in s && s !! PathNodes(inner)
            && other !in s + PathNodes(inner) && node.parent !in s + PathNodes(inner)
            && (other != null ==> other in Nodes(sibling))
            && (node.parent != null ==> node.parent in PathNodes(c))
    ensures inner.node in PathNodes(inner)
  {
    var base := At(d, node, sibling, c);
    JoinLinked(inner, base, inner.node, root);
    JoinApart(inner, base, s);
    BottomOf(inner, s);
    ApartSubset(inner, s, {});
    ApartDisjoint(inner, s);
    Around(node, d, sibling, c, root, s + PathNodes(inner));
  }

  /** The nodes a removal moves around all come from the old tree. */
  lemma DetachNodes(inner: Path, d: Side, f: Shape, swap: Node, c: Path, x: Shape)
    requires f.Bin?
    requires PathNodes(Join(inner, At(d, f.node, Sub(f, d.Other()), c))) + Nodes(Mk(d, x, swap, Nil)) ==
             PathNodes(c) + Nodes(f)
    ensures var all, sibling := PathNodes(c) + Nodes(f), Sub(f, d.Other());
            && PathNodes(inner) <= all && Nodes(x) <= all && swap in all && Nodes(sibling) <= all
            && PathNodes(Join(inner, At(d, f.node, sibling, c))) <= all
            && PathNodes(Join(inner, At(d, swap, sibling, c))) <= all
  {
    var sibling := Sub(f, d.Other());
    MkFacts(d, x, swap, Nil);
    JoinNodes(inner, At(d, f.node, sibling, c));
    JoinNodes(inner, At(d, swap, sibling, c));
  }

  lemma JoinIsAt(inner: Path, c: Path)
    requires c.At?
    ensures Join(inner, c).At?
  {
  }

  /** What `FindReplacement` finds is fit to be cut out and moved up. */
  lemma DetachFacts(inner: Path, d: Side, f: Shape, swap: Node, c: Path, x: Shape)
    requires f.Bin? && AllSide(inner, d.Other())
    requires var c1 := Join(inner, At(d, f.node, Sub(f, d.Other()), c));
             Distinct(Mk(d, x, swap, Nil)) && Apart(c1, Nodes(Mk(d, x, swap, Nil))) &&
             PathNear(c1, H(Mk(d, x, swap, Nil)))
    requires Before(inner) + InOrder(Mk(d, x, swap, Nil)) + After(inner) == InOrder(Sub(f, d))
    ensures var c1 := Join(inner, At(d, f.node, Sub(f, d.Other()), c));
            var c2 := Join(inner, At(d, swap, Sub(f, d.Other()), c));
            && c1.At? && Distinct(x) && swap !in Nodes(x) && Apart(c1, Nodes(x) + {swap})
            && Apart(c2, Nodes(x)) && PathNear(c2, H(x) + 1)
            && Before(c2) + InOrder(x) + After(c2) ==
               (Before(c) + InOrder(f.left)) + (InOrder(f.right) + After(c))
  {
    hide Distinct, Apart, PathNear, Before, After, InOrder, PathNodes, Mk;
    var sibling := Sub(f, d.Other());
    MkFacts(d, x, swap, Nil);
    JoinIsAt(inner, At(d, f.node, sibling, c));
    assert Nodes(Mk(d, x, swap, Nil)) == Nodes(x) + {swap};
    assert H(Mk(d, x, swap, Nil)) == H(x) + 1;
    assert Apart(Join(inner, At(d, swap, sibling, c)), Nodes(x)) by {
      ApartSwapped(inner, d, f.node, swap, sibling, c, Nodes(x) + {swap});
      assert Nodes(x) + {swap} - {swap} == Nodes(x);
    }
    NearSwapped(inner, d, f.node, swap, sibling, c, H(x) + 1);
    SwapOrder(inner, d, f, x, swap, c);
  }
}
