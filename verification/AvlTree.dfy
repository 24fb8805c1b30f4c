module AvlTree {
  import opened Ordering
  import opened AvlShapes
  import opened AvlRemoval

  function HeightOf(n: Node?): int
    reads n
  {
    if n == null then 0 else n.height
  }

  lemma HeightIs(t: Shape, n: Node?, p: Node?)
    requires Sound(t, n, p)
    ensures HeightOf(n) == H(t)
  {
  }

  method UpdateHeight(n: Node)
    modifies n`height
    ensures n.left != n && n.right != n ==>
              n.height == 1 + Max(HeightOf(n.left), HeightOf(n.right))
  {
    var l := HeightOf(n.left);
    var r := HeightOf(n.right);
    n.height := if l > r then l + 1 else r + 1;
  }

  class Tree {
    var root: Node?
    var numNodes: int
    const cmp: Comparison
    ghost var shape: Shape

    /** Links agree, every stored height is exact, sibling heights are near, keys are sorted. */
    ghost predicate Valid()
      reads this, Nodes(shape)
    {
      && Sound(shape, root, null) && Distinct(shape)
      && Comparator(cmp) && Sorted(cmp, InOrder(shape))
      && numNodes == |InOrder(shape)|
    }

    /** The count bounds the height: a tree of height h has at least Fib(h + 2) - 1 nodes. */
    lemma CountBound()
      requires Valid()
      ensures numNodes >= Fib(H(shape) + 2) - 1
    {
      HeightBound(shape, root, null);
    }

    /** The nodes in key order; equal keys in insertion order. */
    ghost function Contents(): seq<Node>
      reads this
    {
      InOrder(shape)
    }

    constructor (cmp: Comparison)
      requires Comparator(cmp)
      ensures Valid() && Contents() == [] && this.cmp == cmp
    {
      root := null;
      numNodes := 0;
      this.cmp := cmp;
      shape := Nil;
    }

    /** Puts `n2` where `n1` hangs. The parent's height is brought up to date, its ancestors' heights are not. */
    method Replace(n1: Node, n2: Node?)
      requires n1.parent != null ==> n1.parent.left == n1 || n1.parent.right == n1
      requires n1.parent == null ==> root == n1
      requires n1.parent != n1 && (n2 != null ==> n1.parent != n2)
      modifies `root, if n2 != null then {n2} else {}, if n1.parent != null then {n1.parent} else {}
      ensures n2 != null ==> n2.parent == old(n1.parent) && n2.left == old(n2.left) &&
                             n2.right == old(n2.right) && n2.height == old(n2.height)
      ensures old(n1.parent) == null ==> root == n2
      ensures old(n1.parent) != null ==> root == old(root)
      ensures var p := old(n1.parent); p != null ==>
                p.parent == old(p.parent) &&
                p.left == (if old(p.left) == n1 then n2 else old(p.left)) &&
                p.right == (if old(p.left) == n1 then old(p.right) else n2)
      ensures var p := old(n1.parent); p != null && p.left != p && p.right != p ==>
                p.height == 1 + Max(HeightOf(p.left), HeightOf(p.right))
    {
      var p := n1.parent;
      if n2 != null {
        n2.parent := p;
      }
      if p == null {
        root := n2;
      } else {
        var side := if p.left == n1 then Left else Right;
        p.SetChild(side, n2);
        UpdateHeight(p);
      }
    }

    /**
     The pointer work of a rotation: the child opposite to `d` takes the place of `node`.
     `node` ends with an exact height, the new root and the parent maybe not.
     */
    method Rotate(node: Node, d: Side) returns (g: Node)
      requires node.Child(d.Other()) != null
      requires var g := node.Child(d.Other()); var p := node.parent;
               g != node && p != node && p != g &&
               (g.Child(d) != null ==> g.Child(d) != node && g.Child(d) != g && g.Child(d) != p) &&
               node.Child(d) != node && node.Child(d) != g && g.Child(d.Other()) != g &&
               (p != null ==> p.left == node || p.right == node) && (p == null ==> root == node)
      modifies `root, node, node.Child(d.Other()),
               if node.parent != null then {node.parent} else {},
               if node.Child(d.Other()).Child(d) != null then {node.Child(d.Other()).Child(d)} else {}
      ensures g == old(node.Child(d.Other()))
      ensures g.Child(d) == node && g.Child(d.Other()) == old(g.Child(d.Other()))
      ensures g.parent == old(node.parent) && node.parent == g
      ensures node.Child(d) == old(node.Child(d)) && node.Child(d.Other()) == old(g.Child(d))
      ensures node.height == 1 + Max(HeightOf(node.left), HeightOf(node.right))
      ensures var a := old(g.Child(d)); a != null ==>
                a.parent == node && a.left == old(a.left) && a.right == old(a.right) &&
                a.height == old(a.height)
      ensures old(node.parent) == null ==> root == g
      ensures old(node.parent) != null ==> root == old(root)
      ensures var p := old(node.parent); p != null ==>
                p.parent == old(p.parent) &&
                p.left == (if old(p.left) == node then g else old(p.left)) &&
                p.right == (if old(p.left) == node then old(p.right) else g)
    {
      g := node.Child(d.Other());
      Replace(node, g);
      var a := g.Child(d);
      node.SetChild(d.Other(), a);
      g.SetChild(d, node);
      node.parent := g;
      if a != null {
        a.parent := node;
      }
      UpdateHeight(g);
      UpdateHeight(node);
    }

    /** A rotation below `node`: `l` on side `d`, and the child `g` with `a` and `b`. */
    method RotateParts(node: Node, d: Side, ghost l: Shape, ghost a: Shape, ghost b: Shape)
      returns (g: Node)
      requires node.Child(d.Other()) != null
      requires var g := node.Child(d.Other()); var p := node.parent;
               Sound(l, node.Child(d), node) && Sound(a, g.Child(d), g) &&
               Sound(b, g.Child(d.Other()), g) && Separate(l, node, a, g, b) &&
               (p != null ==> (p.left == node || p.right == node) && p != node && p != g &&
                              p !in Nodes(l) && p !in Nodes(a) && p !in Nodes(b)) &&
               (p == null ==> root == node)
      modifies `root, node, node.Child(d.Other()),
               if node.parent != null then {node.parent} else {},
               if a.Bin? then {a.node} else {}
      ensures g == old(node.Child(d.Other())) && g.parent == old(node.parent)
      ensures g.Child(d) == node && node.parent == g
      ensures Sound(l, node.Child(d), node) && Sound(a, node.Child(d.Other()), node)
      ensures Sound(b, g.Child(d.Other()), g)
      ensures node.height == 1 + Max(H(l), H(a))
      ensures old(node.parent) == null ==> root == g
      ensures old(node.parent) != null ==> root == old(root)
      ensures var p := old(node.parent); p != null ==>
                p.parent == old(p.parent) &&
                p.left == (if old(p.left) == node then g else old(p.left)) &&
                p.right == (if old(p.left) == node then old(p.right) else g)
    {
      g := node.Child(d.Other());
      ghost var mid := g.Child(d);
      assert allocated(Nodes(l)) && allocated(Nodes(a)) && allocated(Nodes(b));
      assert mid != null ==> a.Bin? && mid == a.node && mid in Nodes(a);
      g := Rotate(node, d);
      assert Sound(l, node.Child(d), node) by { Untouched(Spot(l, node.Child(d), node)); }
      assert Sound(b, g.Child(d.Other()), g) by { Untouched(Spot(b, g.Child(d.Other()), g)); }
      assert Sound(a, mid, node) by { Rehung(Spot(a, mid, g)); }
      HeightIs(l, node.Child(d), node);
      HeightIs(a, mid, node);
    }

    /** A rotation inside the tree, below the path `c`. Only `g`'s height is left open. */
    method RotateAt(node: Node, d: Side, ghost l: Shape, ghost a: Shape, ghost b: Shape,
                    ghost c: Path, ghost s: set<Node>)
      returns (g: Node)
      requires node.Child(d.Other()) != null
      requires var g := node.Child(d.Other());
               Sound(l, node.Child(d), node) && Sound(a, g.Child(d), g) &&
               Sound(b, g.Child(d.Other()), g) && Separate(l, node, a, g, b) &&
               Apart(c, s) && node in s && g in s && Nodes(l) <= s && Nodes(a) <= s && Nodes(b) <= s
      requires Linked(c, node.parent, root) && Hole(c, root) == node
      modifies `root, PathNodes(c), {node, node.Child(d.Other())} + Nodes(a)
      ensures g == old(node.Child(d.Other()))
      ensures g.Child(d) == node && node.parent == g
      ensures Sound(l, node.Child(d), node) && Sound(a, node.Child(d.Other()), node)
      ensures Sound(b, g.Child(d.Other()), g)
      ensures node.height == 1 + Max(H(l), H(a))
      ensures Linked(c, g.parent, root) && Hole(c, root) == g
    {
      ghost var p, root0 := node.parent, root;
      ApartDisjoint(c, s);
      assert allocated(PathNodes(c));
      assert a.Bin? ==> a.node in s;
      g := RotateParts(node, d, l, a, b);
      StaysLinked(Place(c, p, root0, root, s));
    }

    /** A rotation at `node` that leaves both new levels balanced. */
    method RotateWhole(node: Node, d: Side, ghost l: Shape, ghost a: Shape, ghost b: Shape, ghost c: Path)
      returns (top: Node)
      requires node.Child(d.Other()) != null
      requires var g := node.Child(d.Other());
               Sound(l, node.Child(d), node) && Sound(a, g.Child(d), g) &&
               Sound(b, g.Child(d.Other()), g) &&
               Separate(l, node, a, g, b) && Apart(c, Pieces(l, node, a, g, b))
      requires Near(H(l), H(a)) && Near(1 + Max(H(l), H(a)), H(b))
      requires Linked(c, node.parent, root) && Hole(c, root) == node
      modifies `root, PathNodes(c), {node, node.Child(d.Other())} + Nodes(a)
      ensures top == old(node.Child(d.Other()))
      ensures Almost(Mk(d, Mk(d, l, node, a), top, b), top, top.parent)
      ensures Linked(c, top.parent, root) && Hole(c, root) == top
    {
      top := RotateAt(node, d, l, a, b, c, Pieces(l, node, a, node.Child(d.Other()), b));
      SoundMk(d, l, node, a, top);
      AlmostMk(d, Mk(d, l, node, a), top, b, top.parent);
    }

    /** The first half of a double rotation: the heavy child is rotated away from `node`. */
    method RotateInner(node: Node, d: Side, ghost l: Shape, ghost z: Shape, ghost y: Shape,
                       ghost x: Shape, ghost g: Node, ghost c: Path)
      requires node.Child(d.Other()) != null && node.Child(d.Other()).Child(d) == g
      requires var child := node.Child(d.Other());
               child.parent == node && Sound(l, node.Child(d), node) &&
               Sound(z, child.Child(d.Other()), child) &&
               Sound(y, g.Child(d.Other()), g) && Sound(x, g.Child(d), g) && Near(H(y), H(z)) &&
               Separate(z, child, y, g, x) &&
               Apart(At(d.Other(), node, l, c), Pieces(z, child, y, g, x))
      requires Linked(c, node.parent, root) && Hole(c, root) == node
      modifies `root, PathNodes(c), {node, node.Child(d.Other()), g} + Nodes(l) + Nodes(y)
      ensures node.Child(d.Other()) == g
      ensures Sound(l, node.Child(d), node) && Sound(x, g.Child(d), g)
      ensures Sound(Mk(d, y, old(node.Child(d.Other())), z), g.Child(d.Other()), g)
      ensures Linked(c, node.parent, root) && Hole(c, root) == node
    {
      var child := node.Child(d.Other());
      ghost var inner := At(d.Other(), node, l, c);
      assert Linked(inner, node, root);
      var up := RotateAt(child, d.Other(), z, y, x, inner, Pieces(z, child, y, g, x));
      SoundMk(d, y, child, z, g);
    }

    /** The single rotation: `r` outweighs `l` by two and does not lean towards `l`. */
    method RotateOnce(node: Node, d: Side, ghost l: Shape, ghost r: Shape, ghost c: Path)
      returns (top: Node, ghost t: Shape)
      requires Sound(l, node.Child(d), node) && Sound(r, node.Child(d.Other()), node)
      requires H(r) == H(l) + 2 && H(Sub(r, d.Other())) >= H(Sub(r, d))
      requires Distinct(Mk(d, l, node, r)) && Apart(c, Nodes(Mk(d, l, node, r)))
      requires Linked(c, node.parent, root) && Hole(c, root) == node
      modifies `root, PathNodes(c), {node} + Nodes(r)
      ensures t == Mk(d, Mk(d, l, node, Sub(r, d)), r.node, Sub(r, d.Other()))
      ensures Almost(t, top, top.parent)
      ensures Linked(c, top.parent, root) && Hole(c, root) == top
    {
      ghost var a, b := Sub(r, d), Sub(r, d.Other());
      assert Mk(d, a, r.node, b) == r;
      PartsBefore(d, l, node, a, r.node, b);
      top := RotateWhole(node, d, l, a, b, c);
      t := Mk(d, Mk(d, l, node, a), top, b);
    }

    /** The double rotation: `r` outweighs `l` by two and leans towards `l`. */
    method RotateTwice(node: Node, d: Side, ghost l: Shape, ghost r: Shape, ghost c: Path)
      returns (top: Node, ghost t: Shape)
      requires Sound(l, node.Child(d), node) && Sound(r, node.Child(d.Other()), node)
      requires H(r) == H(l) + 2 && H(Sub(r, d.Other())) < H(Sub(r, d))
      requires Distinct(Mk(d, l, node, r)) && Apart(c, Nodes(Mk(d, l, node, r)))
      requires Linked(c, node.parent, root) && Hole(c, root) == node
      modifies `root, PathNodes(c), {node} + Nodes(l) + Nodes(r)
      ensures Sub(r, d).Bin? && t == Doubled(d, l, node, r)
      ensures Almost(t, top, top.parent)
      ensures Linked(c, top.parent, root) && Hole(c, root) == top
    {
      ghost var m, z := Sub(r, d), Sub(r, d.Other());
      ghost var x, y := Sub(m, d), Sub(m, d.Other());
      SoundSubs(r, node.Child(d.Other()), node, d);
      SoundSubs(m, r.node.Child(d), r.node, d);
      DoubleHeights(d, l, r);
      DoubleNodes(d, r);
      DoubleInner(d, l, node, r, c);
      DoubleOuter(d, l, node, r, c);
      RotateInner(node, d, l, z, y, x, m.node, c);
      top := RotateWhole(node, d, l, x, Mk(d, y, r.node, z), c);
      t := Doubled(d, l, node, r);
    }

    /** The last line of avl_tree_node_balance makes the top height exact. */
    method SettleHeight(top: Node, ghost t: Shape, ghost c: Path)
      requires Almost(t, top, top.parent) && Distinct(t) && Apart(c, Nodes(t))
      requires Linked(c, top.parent, root) && Hole(c, root) == top
      modifies top`height
      ensures top.parent == old(top.parent)
      ensures Sound(t, top, top.parent) && Linked(c, top.parent, root) && Hole(c, root) == top
    {
      ghost var s := Nodes(t);
      ApartDisjoint(c, s);
      assert top in s && top !in PathNodes(c) && top !in Nodes(t.left) && top !in Nodes(t.right);
      assert allocated(PathNodes(c)) && allocated(Nodes(t.left)) && allocated(Nodes(t.right));
      HeightIs(t.left, top.left, top);
      HeightIs(t.right, top.right, top);
      UpdateHeight(top);
      assert Sound(t.left, top.left, top) by { Untouched(Spot(t.left, top.left, top)); }
      assert Sound(t.right, top.right, top) by { Untouched(Spot(t.right, top.right, top)); }
      assert Linked(c, top.parent, root) by { StaysLinked(Place(c, top.parent, root, root, s)); }
      HeightIs(t.left, top.left, top);
      HeightIs(t.right, top.right, top);
    }

    /** avl_tree_node_balance for the case where the child opposite to `d` is too tall. */
    method Lean(node: Node, d: Side, ghost l: Shape, ghost r: Shape, ghost c: Path)
      returns (top: Node, ghost t: Shape)
      requires Sound(l, node.Child(d), node) && Sound(r, node.Child(d.Other()), node)
      requires H(r) == H(l) + 2
      requires Distinct(Mk(d, l, node, r)) && Apart(c, Nodes(Mk(d, l, node, r)))
      requires Linked(c, node.parent, root) && Hole(c, root) == node
      modifies `root, PathNodes(c), {node} + Nodes(l) + Nodes(r)
      ensures Rebalanced(Mk(d, l, node, r), t) && Almost(t, top, top.parent)
      ensures Linked(c, top.parent, root) && Hole(c, root) == top
    {
      var child := node.Child(d.Other());
      SoundSubs(r, child, node, d);
      HeightIs(Sub(r, d), child.Child(d), child);
      HeightIs(Sub(r, d.Other()), child.Child(d.Other()), child);
      if HeightOf(child.Child(d.Other())) < HeightOf(child.Child(d)) {
        SoundSubs(Sub(r, d), child.Child(d), child, d);
        top, t := RotateTwice(node, d, l, r, c);
        TwiceRebalanced(d, l, node, r);
      } else {
        top, t := RotateOnce(node, d, l, r, c);
        OnceRebalanced(d, l, node, r);
      }
    }

    /** avl_tree_node_balance. The subtrees of `node` are right; its own height need not be. */
    method NodeBalance(node: Node, ghost l: Shape, ghost r: Shape, ghost c: Path)
      returns (top: Node, ghost t: Shape)
      requires Sound(l, node.left, node) && Sound(r, node.right, node)
      requires -2 <= H(l) - H(r) <= 2
      requires Distinct(Bin(l, node, r)) && Apart(c, Nodes(Bin(l, node, r)))
      requires Linked(c, node.parent, root) && Hole(c, root) == node
      modifies `root, PathNodes(c), Nodes(Bin(l, node, r))
      ensures Rebalanced(Bin(l, node, r), t) && Sound(t, top, top.parent)
      ensures Linked(c, top.parent, root) && Hole(c, root) == top
    {
      HeightIs(l, node.left, node);
      HeightIs(r, node.right, node);
      var diff := HeightOf(node.right) - HeightOf(node.left);
      if diff >= 2 {
        assert Mk(Left, l, node, r) == Bin(l, node, r);
        top, t := Lean(node, Left, l, r, c);
      } else if diff <= -2 {
        assert Mk(Right, r, node, l) == Bin(l, node, r);
        top, t := Lean(node, Right, r, l, c);
      } else {
        top, t := node, Bin(l, node, r);
      }
      SettleHeight(top, t, c);
    }

    /**
     The climb stands at `rover`, the lowest node of the path `c`. Everything below is right, and
     its height is at most one off the height `h` for which the whole path was balanced. Nothing
     is known of the heights stored on the path.
     */
    ghost predicate Climbing(c: Path, t: Shape, rover: Node?, h: int, nodes: set<Node>, order: seq<Node>)
      reads this, PathNodes(c), Nodes(t), if c.At? then {c.node} else {}
    {
      && Linked(c, rover, root) && Sound(t, Hole(c, root), rover)
      && Distinct(t) && Apart(c, Nodes(t)) && PathNear(c, h) && Near(H(t), h)
      && PathNodes(c) + Nodes(t) == nodes
      && Before(c) + InOrder(t) + After(c) == order
    }

    /** One turn of the loop of avl_tree_balance_to_root. */
    method BalanceOne(rover: Node, ghost c: Path, ghost f: Shape, ghost h: int, ghost nodes: set<Node>,
                      ghost order: seq<Node>)
      returns (next: Node?, ghost t: Shape)
      requires Climbing(c, f, rover, h, nodes, order)
      modifies `root, nodes
      ensures c.At? && Climbing(c.up, t, next, 1 + Max(h, H(c.sibling)), nodes, order)
    {
      ghost var was := Closed(c, f);
      Climb(c, f);
      var top;
      top, t := NodeBalance(rover, was.left, was.right, c.up);
      ClimbHeight(c, f, h, t);
      next := top.parent;
    }

    /** avl_tree_balance_to_root: afterwards the whole tree is right and in the same order. */
    method BalanceToRoot(start: Node?, ghost c0: Path, ghost f0: Shape, ghost h0: int)
      returns (ghost t: Shape)
      requires Linked(c0, start, root) && Sound(f0, Hole(c0, root), start)
      requires Distinct(f0) && Apart(c0, Nodes(f0))
      requires PathNear(c0, h0) && Near(H(f0), h0)
      modifies `root, PathNodes(c0), Nodes(f0)
      ensures Sound(t, root, null) && Distinct(t)
      ensures Nodes(t) == PathNodes(c0) + Nodes(f0)
      ensures InOrder(t) == Before(c0) + InOrder(f0) + After(c0)
    {
      hide Distinct, Apart, PathNear, Before, After, InOrder, Climbing;
      var rover := start;
      ghost var c, h := c0, h0;
      ghost var nodes, order := PathNodes(c0) + Nodes(f0), Before(c0) + InOrder(f0) + After(c0);
      t := f0;
      ClimbStart(start, c0, f0, h0);
      while rover != null
        invariant Climbing(c, t, rover, h, nodes, order)
        decreases c
      {
        rover, t := BalanceOne(rover, c, t, h, nodes, order);
        h := 1 + Max(h, H(c.sibling));
        c := c.up;
      }
      ClimbDone(c, t, h, nodes, order);
    }

    lemma ClimbStart(start: Node?, c: Path, f: Shape, h: int)
      requires Linked(c, start, root) && Sound(f, Hole(c, root), start)
      requires Distinct(f) && Apart(c, Nodes(f)) && PathNear(c, h) && Near(H(f), h)
      ensures Climbing(c, f, start, h, PathNodes(c) + Nodes(f), Before(c) + InOrder(f) + After(c))
    {
    }

    /** At the top the tree is all there is. */
    lemma ClimbDone(c: Path, t: Shape, h: int, nodes: set<Node>, order: seq<Node>)
      requires Climbing(c, t, null, h, nodes, order)
      ensures Sound(t, root, null) && Distinct(t) && Nodes(t) == nodes && InOrder(t) == order
    {
      assert c.Top?;
    }

    /** The search stands at the hole of `c`, with `t` still below and `key` not passed. */
    ghost predicate Walking(c: Path, t: Shape, last: Node?, key: Key)
      reads this, PathNodes(c), Nodes(t)
    {
      && Focused(c, t, root, last)
      && PathNodes(c) + Nodes(t) == Nodes(shape)
      && Before(c) + InOrder(t) + After(c) == InOrder(shape)
      && Sorted(cmp, InOrder(t))
      && AllUpTo(cmp, Before(c), key) && AllBeyond(cmp, After(c), key)
    }

    lemma WalkDown(c: Path, t: Shape, last: Node?, key: Key, d: Side)
      requires Comparator(cmp) && Walking(c, t, last, key) && t.Bin?
      requires d == if cmp(key, t.node.key) < 0 then Left else Right
      ensures t.node == Hole(c, root)
      ensures Walking(At(d, t.node, Sub(t, d.Other()), c), Sub(t, d), t.node, key)
    {
      Descend(c, t, d, root, last);
      DescendPlaces(cmp, c, t, key, d);
    }

    /** The walk of avl_tree_insert down to the free pointer. */
    method FindPlace(key: Key) returns (last: Node?, side: Side, ghost c: Path)
      requires Valid()
      ensures Walking(c, Nil, last, key)
      ensures c.At? ==> c.side == side
    {
      var rover := root;
      last := null;
      side := Left;
      c := Top;
      ghost var t := shape;
      while rover != null
        invariant Walking(c, t, last, key) && rover == Hole(c, root)
        invariant c.At? ==> c.side == side
        decreases t
      {
        last := rover;
        side := if cmp(key, rover.key) < 0 then Left else Right;
        WalkDown(c, t, rover.parent, key, side);
        c, t := At(side, t.node, Sub(t, side.Other()), c), Sub(t, side);
        rover := rover.Child(side);
      }
    }

    /** Writes the new node into the free pointer at the hole. */
    method Attach(node: Node, last: Node?, side: Side, ghost c: Path)
      requires Linked(c, last, root) && Apart(c, {}) && node !in PathNodes(c)
      requires c.At? ==> c.side == side
      requires node.parent == last && node.left == null && node.right == null && node.height == 1
      modifies `root, PathNodes(c)
      ensures Linked(c, last, root) && Hole(c, root) == node && Apart(c, {node})
      ensures Sound(Bin(Nil, node, Nil), node, last)
    {
      ghost var root0 := root;
      assert allocated(PathNodes(c));
      ApartWith(c, {}, node);
      assert {} + {node} == {node};
      if last == null {
        root := node;
      } else {
        last.SetChild(side, node);
      }
      StaysLinked(Place(c, last, root0, root, {}));
    }

    /** The second half of avl_tree_insert: link the node and rebalance. */
    method Grow(node: Node, last: Node?, side: Side, ghost c: Path) returns (ghost t: Shape)
      requires Linked(c, last, root) && Apart(c, {}) && PathNear(c, 0) && node !in PathNodes(c)
      requires c.At? ==> c.side == side
      requires node.parent == last && node.left == null && node.right == null && node.height == 1
      modifies `root, PathNodes(c), node
      ensures Sound(t, root, null) && Distinct(t)
      ensures Nodes(t) == PathNodes(c) + {node}
      ensures InOrder(t) == Before(c) + [node] + After(c)
    {
      Attach(node, last, side, c);
      ghost var f := Bin(Nil, node, Nil);
      assert Nodes(f) == {node} && InOrder(f) == [node];
      t := BalanceToRoot(last, c, f, 0);
    }

    lemma FoundPlace(c: Path, last: Node?, key: Key)
      requires Walking(c, Nil, last, key)
      ensures Linked(c, last, root) && Apart(c, {}) && PathNear(c, 0) && PathNodes(c) == Nodes(shape)
      ensures Before(c) + After(c) == InOrder(shape) && AllUpTo(cmp, Before(c), key) && AllBeyond(cmp, After(c), key)
    {
      assert Before(c) + InOrder(Nil) + After(c) == Before(c) + After(c);
    }

    lemma SignsAround(a: seq<Node>, b: seq<Node>, key: Key)
      requires AllUpTo(cmp, a, key) && AllBeyond(cmp, b, key)
      ensures forall i | 0 <= i < |a + b| :: if i < |a| then cmp((a + b)[i].key, key) <= 0 else cmp((a + b)[i].key, key) > 0
    {
    }

    method Insert(key: Key, value: Value) returns (node: Node, ghost k: nat)
      requires Valid()
      modifies this, Nodes(shape)
      ensures Valid() && fresh(node) && node.key == key && node.value == value
      ensures var was := old(Contents());
              k <= |was| && Contents() == was[..k] + [node] + was[k..] &&
              AllUpTo(cmp, was[..k], key) && AllBeyond(cmp, was[k..], key)
      ensures forall i | 0 <= i < |old(Contents())| ::
                if i < k then cmp(old(Contents())[i].key, key) <= 0 else cmp(old(Contents())[i].key, key) > 0
      ensures numNodes == old(numNodes) + 1
    {
      hide Linked, Sound, Distinct, Apart, PathNear, Walking, Sorted, AllUpTo, AllBeyond;
      ghost var was, nodes := Contents(), Nodes(shape);
      var last, side, c := FindPlace(key);
      FoundPlace(c, last, key);
      k := |Before(c)|;
      assert PathNodes(c) == nodes && was == Before(c) + After(c);
      assert was[..k] == Before(c) && was[k..] == After(c);
      assert allocated(PathNodes(c));
      node := new Node(key, value, last);
      InsertSorted(cmp, Before(c), After(c), node);
      SignsAround(Before(c), After(c), key);
      shape := Grow(node, last, side, c);
      numNodes := numNodes + 1;
    }

    /** Unlinks `swap`, which has no child opposite to `d`, and hooks its other child in. */
    method CutOut(swap: Node, d: Side, ghost c: Path, ghost x: Shape)
      requires c.At? && Linked(c, swap.parent, root) && Hole(c, root) == swap
      requires Sound(x, swap.Child(d), swap) && Distinct(x) && swap !in Nodes(x)
      requires Apart(c, Nodes(x) + {swap})
      modifies `root, c.node, if x.Bin? then {x.node} else {}
      ensures root == old(root) && c.node == swap.parent
      ensures Linked(c, swap.parent, root) && Sound(x, Hole(c, root), swap.parent)
    {
      var child := swap.Child(d);
      ghost var s := Nodes(x) + {swap};
      ApartDisjoint(c, s);
      assert c.node in PathNodes(c) && c.node !in s;
      assert allocated(PathNodes(c)) && allocated(Nodes(x));
      assert x.Bin? ==> x.node == child && x.node in s;
      Replace(swap, child);
      UpdateHeight(swap.parent);
      assert Sound(x, child, swap.parent) by { Rehung(Spot(x, child, swap)); }
      assert Linked(c, swap.parent, root) by { StaysLinked(Place(c, swap.parent, root, root, s)); }
    }

    /** The walk for a replacement stands at `swap` with `t` below it, `inner` on the way to `base`. */
    ghost predicate Hunting(swap: Node, t: Shape, inner: Path, base: Path, d: Side, nodes: set<Node>, order: seq<Node>)
      reads this, PathNodes(Join(inner, base)), Nodes(t),
            if Join(inner, base).At? then {Join(inner, base).node} else {}
    {
      && t.Bin? && t.node == swap && AllSide(inner, d.Other())
      && Focused(Join(inner, base), t, root, swap.parent) && Hole(Join(inner, base), root) == swap
      && PathNodes(Join(inner, base)) + Nodes(t) == nodes
      && Before(inner) + InOrder(t) + After(inner) == order
    }

    lemma HuntDown(swap: Node, t: Shape, inner: Path, base: Path, d: Side, nodes: set<Node>, order: seq<Node>)
      requires Hunting(swap, t, inner, base, d, nodes, order) && swap.Child(d.Other()) != null
      ensures Hunting(swap.Child(d.Other()), Sub(t, d.Other()), At(d.Other(), swap, Sub(t, d), inner),
                      base, d, nodes, order)
    {
      Descend(Join(inner, base), t, d.Other(), root, swap.parent);
      SoundSubs(t, swap, swap.parent, d);
      ClimbOrder(At(d.Other(), swap, Sub(t, d), inner), Sub(t, d.Other()));
    }

    /** The walk of avl_tree_node_get_replacement from a child back towards the centre. */
    method FindReplacement(node: Node, d: Side, ghost c: Path, ghost f: Shape)
      returns (swap: Node, ghost inner: Path, ghost x: Shape)
      requires f.Bin? && f.node == node && Sub(f, d).Bin? && Hole(c, root) == node
      requires Focused(c, f, root, node.parent)
      ensures var base := At(d, node, Sub(f, d.Other()), c);
              Hunting(swap, Mk(d, x, swap, Nil), inner, base, d, PathNodes(c) + Nodes(f), InOrder(Sub(f, d)))
      ensures Sound(x, swap.Child(d), swap)
    {
      ghost var base := At(d, node, Sub(f, d.Other()), c);
      ghost var nodes, order := PathNodes(c) + Nodes(f), InOrder(Sub(f, d));
      Descend(c, f, d, root, node.parent);
      swap := node.Child(d);
      inner := Top;
      ghost var t := Sub(f, d);
      while swap.Child(d.Other()) != null
        invariant Hunting(swap, t, inner, base, d, nodes, order)
        decreases t
      {
        HuntDown(swap, t, inner, base, d, nodes, order);
        inner, t := At(d.Other(), swap, Sub(t, d), inner), Sub(t, d.Other());
        swap := swap.Child(d.Other());
      }
      SoundSubs(t, swap, swap.parent, d);
      x := Sub(t, d);
      assert t == Mk(d, x, swap, Nil);
    }

    /** Copies the links and the height of `node` into `swap` and puts `swap` in its place. */
    method Adopt(node: Node, swap: Node, ghost d: Side)
      requires node.parent != null ==> node.parent.left == node || node.parent.right == node
      requires node.parent == null ==> root == node
      requires swap != node && swap != node.parent && node != node.parent
      requires var a, b := node.Child(d), node.Child(d.Other());
               a != swap && b != swap && a != node && b != node &&
               (a != null ==> a != b && a != node.parent) && (b != null ==> b != node.parent)
      modifies `root, swap, if node.Child(d) != null then {node.Child(d)} else {},
               if node.Child(d.Other()) != null then {node.Child(d.Other())} else {},
               if node.parent != null then {node.parent} else {}
      ensures swap.Child(d) == old(node.Child(d)) && swap.Child(d.Other()) == old(node.Child(d.Other()))
      ensures swap.parent == old(node.parent)
      ensures var a := old(node.Child(d)); a != null ==>
                a.parent == swap && a.left == old(a.left) && a.right == old(a.right) &&
                a.height == old(a.height)
      ensures var b := old(node.Child(d.Other())); b != null ==>
                b.parent == swap && b.left == old(b.left) && b.right == old(b.right) &&
                b.height == old(b.height)
      ensures old(node.parent) == null ==> root == swap
      ensures old(node.parent) != null ==> root == old(root)
      ensures var p := old(node.parent); p != null ==>
                p.parent == old(p.parent) &&
                p.left == (if old(p.left) == node then swap else old(p.left)) &&
                p.right == (if old(p.left) == node then old(p.right) else swap)
    {
      swap.left := node.left;
      if swap.left != null {
        swap.left.parent := swap;
      }
      swap.right := node.right;
      if swap.right != null {
        swap.right.parent := swap;
      }
      swap.height := node.height;
      Replace(node, swap);
    }

    /** `Adopt` together with the subtree on the side opposite to `d`. */
    method AdoptParts(node: Node, swap: Node, ghost d: Side, ghost sibling: Shape)
      requires node.parent != null ==> node.parent.left == node || node.parent.right == node
      requires node.parent == null ==> root == node
      requires swap != node && swap != node.parent && node != node.parent
      requires var a := node.Child(d);
               a != swap && a != node && (a != null ==> a != node.parent && a !in Nodes(sibling))
      requires Sound(sibling, node.Child(d.Other()), node) && Distinct(sibling)
      requires swap !in Nodes(sibling) && node !in Nodes(sibling) && node.parent !in Nodes(sibling)
      modifies `root, swap, if node.Child(d) != null then {node.Child(d)} else {},
               if node.Child(d.Other()) != null then {node.Child(d.Other())} else {},
               if node.parent != null then {node.parent} else {}
      ensures swap.Child(d) == old(node.Child(d)) && swap.parent == old(node.parent)
      ensures var a := old(node.Child(d)); a != null ==>
                a.parent == swap && a.left == old(a.left) && a.right == old(a.right) &&
                a.height == old(a.height)
      ensures Sound(sibling, swap.Child(d.Other()), swap)
      ensures old(node.parent) == null ==> root == swap
      ensures old(node.parent) != null ==> root == old(root)
      ensures var p := old(node.parent); p != null ==>
                p.parent == old(p.parent) &&
                p.left == (if old(p.left) == node then swap else old(p.left)) &&
                p.right == (if old(p.left) == node then old(p.right) else swap)
    {
      ghost var other := node.Child(d.Other());
      assert allocated(Nodes(sibling));
      assert other != null ==> other in Nodes(sibling);
      Adopt(node, swap, d);
      Rehung(Spot(sibling, other, node));
    }

    /** `Adopt` inside the tree: the other subtree of `node` and the path above it follow. */
    method AdoptAt(node: Node, swap: Node, ghost d: Side, ghost sibling: Shape, ghost c: Path, ghost r: set<Node>)
      requires Linked(At(d, node, sibling, c), node, root)
      requires Apart(At(d, node, sibling, c), r) && swap in r
      requires node.Child(d) != null ==> node.Child(d) in r && node.Child(d) != swap
      modifies `root, swap, if node.Child(d) != null then {node.Child(d)} else {},
               if node.Child(d.Other()) != null then {node.Child(d.Other())} else {},
               if node.parent != null then {node.parent} else {}
      ensures Linked(At(d, swap, sibling, c), swap, root) && (root == old(root) || root == swap)
      ensures swap.Child(d) == old(node.Child(d))
      ensures var a := old(node.Child(d)); a != null ==>
                a.parent == swap && a.left == old(a.left) && a.right == old(a.right) &&
                a.height == old(a.height)
    {
      ghost var p, root0, x, other := node.parent, root, node.Child(d), node.Child(d.Other());
      assert allocated(PathNodes(c));
      assert Apart(c, {}) && swap !in PathNodes(c) && x !in PathNodes(c) && other !in PathNodes(c) by {
        Around(node, d, sibling, c, root, r);
        ApartSubset(c, r + {node} + Nodes(sibling), {});
      }
      assert Distinct(sibling) && Linked(c, p, root) && Hole(c, root) == node;
      assert p !in r && p !in Nodes(sibling) && swap !in Nodes(sibling) && x !in Nodes(sibling) by {
        Around(node, d, sibling, c, root, r);
      }
      AdoptParts(node, swap, d, sibling);
      StaysLinked(Place(c, p, root0, root, {}));
    }

    /** The replacement was a child of the removed node: its other subtree `x` hangs right below it. */
    method TakeOverNear(node: Node, swap: Node, ghost d: Side, ghost sibling: Shape, ghost c: Path,
                        ghost x: Shape)
      requires Linked(At(d, node, sibling, c), node, root)
      requires Apart(At(d, node, sibling, c), Nodes(x) + {swap}) && Distinct(x) && swap !in Nodes(x)
      requires Sound(x, node.Child(d), node)
      modifies `root, swap, Nodes(x), Nodes(sibling), PathNodes(c)
      ensures Linked(At(d, swap, sibling, c), swap, root) && Sound(x, swap.Child(d), swap)
    {
      ghost var r, top := Nodes(x) + {swap}, node.Child(d);
      assert allocated(Nodes(x));
      assert top != null ==> top in Nodes(x);
      assert node !in r && node.Child(d.Other()) !in Nodes(x) && node.parent !in Nodes(x) &&
             (node.Child(d.Other()) != null ==> node.Child(d.Other()) in Nodes(sibling)) &&
             (node.parent != null ==> node.parent in PathNodes(c)) by {
        Around(node, d, sibling, c, root, r);
      }
      AdoptAt(node, swap, d, sibling, c, r);
      Rehung(Spot(x, top, node));
    }

    /** The replacement came from deeper down: the path to its old parent now runs below it. */
    method RelinkFar(node: Node, swap: Node, ghost d: Side, ghost inner: Path, ghost sibling: Shape,
                     ghost c: Path, ghost s: set<Node>)
      requires inner.At? && Linked(Join(inner, At(d, node, sibling, c)), inner.node, root)
      requires Apart(Join(inner, At(d, node, sibling, c)), s) && swap in s
      modifies `root, swap, if node.Child(d) != null then {node.Child(d)} else {},
               if node.Child(d.Other()) != null then {node.Child(d.Other())} else {},
               if node.parent != null then {node.parent} else {}
      ensures Linked(Join(inner, At(d, swap, sibling, c)), inner.node, root)
      ensures Hole(inner, root) == old(Hole(inner, root))
    {
      ghost var root0, p, other := root, node.parent, node.Child(d.Other());
      FarFacts(node, d, inner, sibling, c, root, s);
      assert forall o | o in PathNodes(inner) :: o != swap && o != other && o != p;
      assert allocated(PathNodes(inner));
      AdoptAt(node, swap, d, sibling, c, s + PathNodes(inner));
      Regraft(Graft(inner, d, node, swap, sibling, c, root0, root));
    }

    /** `RelinkFar` with the subtree `x` that was left at the bottom of the path. */
    method TakeOverFar(node: Node, swap: Node, ghost d: Side, ghost inner: Path, ghost sibling: Shape,
                       ghost c: Path, ghost x: Shape)
      requires inner.At? && Linked(Join(inner, At(d, node, sibling, c)), inner.node, root)
      requires Apart(Join(inner, At(d, node, sibling, c)), Nodes(x) + {swap})
      requires swap !in Nodes(x) && Sound(x, Hole(inner, root), inner.node)
      modifies `root, swap, PathNodes(inner), Nodes(sibling), PathNodes(c)
      ensures Linked(Join(inner, At(d, swap, sibling, c)), inner.node, root)
      ensures Sound(x, Hole(inner, root), inner.node)
    {
      ghost var s := Nodes(x) + {swap};
      FarFacts(node, d, inner, sibling, c, root, s);
      assert allocated(Nodes(x));
      ghost var hole := Hole(inner, root);
      assert node.Child(d) !in Nodes(x) && node.Child(d.Other()) !in Nodes(x) && node.parent !in Nodes(x);
      RelinkFar(node, swap, d, inner, sibling, c, s);
      Untouched(Spot(x, hole, inner.node));
    }

    /** The middle of avl_tree_remove_node, after the replacement was cut out. */
    method TakeOver(node: Node, swap: Node, ghost d: Side, ghost inner: Path, ghost sibling: Shape,
                    ghost c: Path, ghost x: Shape) returns (start: Node)
      requires Linked(Join(inner, At(d, node, sibling, c)), swap.parent, root)
      requires Apart(Join(inner, At(d, node, sibling, c)), Nodes(x) + {swap})
      requires Sound(x, Hole(Join(inner, At(d, node, sibling, c)), root), swap.parent)
      requires Distinct(x) && swap !in Nodes(x)
      modifies `root, swap, Nodes(x), PathNodes(inner), Nodes(sibling), PathNodes(c)
      ensures var c2 := Join(inner, At(d, swap, sibling, c));
              Linked(c2, start, root) && Sound(x, Hole(c2, root), start)
    {
      JoinLinked(inner, At(d, node, sibling, c), swap.parent, root);
      JoinApart(inner, At(d, node, sibling, c), Nodes(x) + {swap});
      assert Join(Top, At(d, node, sibling, c)) == At(d, node, sibling, c);
      assert Join(Top, At(d, swap, sibling, c)) == At(d, swap, sibling, c);
      if swap.parent == node {
        start := swap;
        TakeOverNear(node, swap, d, sibling, c, x);
      } else {
        start := swap.parent;
        TakeOverFar(node, swap, d, inner, sibling, c, x);
      }
    }

    /** A leaf is removed by clearing the pointer to it. */
    method DetachLeaf(node: Node, ghost c: Path, ghost f: Shape) returns (start: Node?)
      requires f == Bin(Nil, node, Nil) && Hole(c, root) == node && Focused(c, f, root, node.parent)
      modifies `root, PathNodes(c), Nodes(f)
      ensures Linked(c, start, root) && Sound(Nil, Hole(c, root), start)
      ensures Apart(c, {}) && PathNear(c, 1)
      ensures PathNodes(c) <= PathNodes(c) + Nodes(f)
      ensures Before(c) + InOrder(Nil) + After(c) ==
              (Before(c) + InOrder(f.left)) + (InOrder(f.right) + After(c))
    {
      ghost var p, root0 := node.parent, root;
      assert Nodes(f) == {node};
      ApartDisjoint(c, {node});
      ApartSubset(c, {node}, {});
      assert allocated(PathNodes(c));
      Replace(node, null);
      start := node.parent;
      StaysLinked(Place(c, p, root0, root, {node}));
    }

    /** A node with children gives its place to its neighbour on side `d`. */
    method DetachInner(node: Node, d: Side, ghost c: Path, ghost f: Shape)
      returns (start: Node, ghost c2: Path, ghost x: Shape)
      requires f.Bin? && f.node == node && Sub(f, d).Bin? && Hole(c, root) == node
      requires Focused(c, f, root, node.parent)
      modifies `root, PathNodes(c), Nodes(f)
      ensures Linked(c2, start, root) && Sound(x, Hole(c2, root), start)
      ensures Distinct(x) && Apart(c2, Nodes(x)) && PathNear(c2, H(x) + 1)
      ensures PathNodes(c2) + Nodes(x) <= PathNodes(c) + Nodes(f)
      ensures Before(c2) + InOrder(x) + After(c2) ==
              (Before(c) + InOrder(f.left)) + (InOrder(f.right) + After(c))
    {
      hide Distinct, PathNear, Before, After, InOrder;
      ghost var sibling, inner := Sub(f, d.Other()), Top;
      var swap;
      swap, inner, x := FindReplacement(node, d, c, f);
      ghost var c1 := Join(inner, At(d, node, sibling, c));
      c2 := Join(inner, At(d, swap, sibling, c));
      DetachFacts(inner, d, f, swap, c, x);
      DetachNodes(inner, d, f, swap, c, x);
      CutOut(swap, d, c1, x);
      start := TakeOver(node, swap, d, inner, sibling, c, x);
    }

    /** The pointers tell which sides are empty, and the heights which is taller. */
    lemma SidesKnown(node: Node, c: Path, f: Shape)
      requires f.Bin? && f.node == node && Focused(c, f, root, node.parent)
      ensures node.left == null <==> f.left.Nil?
      ensures node.right == null <==> f.right.Nil?
      ensures Sub(f, if HeightOf(node.left) < HeightOf(node.right) then Right else Left).Bin? || (f.left.Nil? && f.right.Nil?)
    {
      HeightIs(f.left, node.left, node);
      HeightIs(f.right, node.right, node);
    }

    lemma Leafless()
      ensures Distinct(Nil) && Nodes(Nil) == {} && H(Nil) == 0
    {
    }

    /** avl_tree_remove_node up to the rebalancing: a leaf goes at once, other nodes are replaced. */
    method Detach(node: Node, ghost c: Path, ghost f: Shape)
      returns (start: Node?, ghost c2: Path, ghost x: Shape)
      requires f.Bin? && f.node == node && Hole(c, root) == node && Focused(c, f, root, node.parent)
      modifies `root, PathNodes(c), Nodes(f)
      ensures Linked(c2, start, root) && Sound(x, Hole(c2, root), start)
      ensures Distinct(x) && Apart(c2, Nodes(x)) && PathNear(c2, H(x) + 1)
      ensures PathNodes(c2) + Nodes(x) <= PathNodes(c) + Nodes(f)
      ensures Before(c2) + InOrder(x) + After(c2) ==
              (Before(c) + InOrder(f.left)) + (InOrder(f.right) + After(c))
    {
      hide Focused, Linked, Sound, Distinct, Apart, PathNear, PathNodes, Nodes, Before, After, InOrder;
      SidesKnown(node, c, f);
      assert allocated(PathNodes(c)) && allocated(Nodes(f));
      if node.left == null && node.right == null {
        start := DetachLeaf(node, c, f);
        c2, x := c, Nil;
        Leafless();
      } else {
        var d := if HeightOf(node.left) < HeightOf(node.right) then Right else Left;
        start, c2, x := DetachInner(node, d, c, f);
      }
    }

    lemma SplitAt(node: Node) returns (c: Path, f: Shape, a: seq<Node>, b: seq<Node>)
      requires Sound(shape, root, null) && Distinct(shape) && node in Nodes(shape)
      ensures f.Bin? && f.node == node && Hole(c, root) == node && Focused(c, f, root, node.parent)
      ensures PathNodes(c) <= Nodes(shape) && Nodes(f) <= Nodes(shape)
      ensures a == Before(c) + InOrder(f.left) && b == InOrder(f.right) + After(c)
      ensures InOrder(shape) == a + [node] + b
    {
      c, f := Locate(Top, shape, root, null, node);
      Surrounded(c, f);
      a, b := Before(c) + InOrder(f.left), InOrder(f.right) + After(c);
    }

    /** Everything avl_tree_remove_node does to the links. */
    method DetachAndBalance(node: Node) returns (ghost t: Shape, ghost a: seq<Node>, ghost b: seq<Node>)
      requires Sound(shape, root, null) && Distinct(shape) && node in Nodes(shape)
      modifies `root, Nodes(shape)
      ensures InOrder(shape) == a + [node] + b
      ensures Sound(t, root, null) && Distinct(t) && InOrder(t) == a + b
    {
      hide Linked, Sound, Distinct, Apart, PathNear, PathNodes, Nodes, Before, After, InOrder, H;
      assert allocated(Nodes(shape));
      ghost var c, f;
      c, f, a, b := SplitAt(node);
      var start, c2, x := Detach(node, c, f);
      t := BalanceToRoot(start, c2, x, H(x) + 1);
    }

    method RemoveNode(node: Node) returns (ghost k: nat)
      requires Valid() && node in Nodes(shape)
      modifies this, Nodes(shape)
      ensures Valid()
      ensures var was := old(Contents());
              k < |was| && was[k] == node && Contents() == was[..k] + was[k + 1..]
      ensures numNodes == old(numNodes) - 1
    {
      ghost var t, a, b := DetachAndBalance(node);
      CutAt(a, node, b);
      RemoveSorted(cmp, a, node, b);
      k := |a|;
      shape := t;
      numNodes := numNodes - 1;
    }

    /** The search stands at `node`; `a` was passed on the left and `b` on the right. */
    ghost predicate Searching(t: Shape, node: Node?, p: Node?, a: seq<Node>, b: seq<Node>, key: Key)
      reads this, Nodes(t)
    {
      Sound(t, node, p) && Sorted(cmp, InOrder(t)) && a + InOrder(t) + b == InOrder(shape) &&
      AllBelow(cmp, a, key) && AllBeyond(cmp, b, key)
    }

    lemma SearchStart(key: Key)
      requires Valid()
      ensures Searching(shape, root, null, [], [], key)
    {
      assert [] + InOrder(shape) + [] == InOrder(shape);
    }

    lemma SearchHit(t: Shape, node: Node, p: Node?, a: seq<Node>, b: seq<Node>, key: Key)
      requires Searching(t, node, p, a, b, key)
      ensures node in InOrder(shape)
    {
      assert node in InOrder(t);
    }

    lemma SearchMiss(t: Shape, p: Node?, a: seq<Node>, b: seq<Node>, key: Key)
      requires Comparator(cmp) && Searching(t, null, p, a, b, key)
      ensures forall n | n in InOrder(shape) :: cmp(key, n.key) != 0
    {
      assert InOrder(t) == [] && a + b == a + InOrder(t) + b;
      NoneEqual(cmp, a, b, key);
    }

    lemma SearchLeft(t: Shape, node: Node, p: Node?, a: seq<Node>, b: seq<Node>, key: Key)
      requires Comparator(cmp) && Searching(t, node, p, a, b, key) && cmp(key, node.key) < 0
      ensures t.Bin? && Searching(t.left, node.left, node, a, [node] + InOrder(t.right) + b, key)
    {
      PlaceKey(cmp, InOrder(t.left), node, InOrder(t.right), key);
      AllBeyondJoin(cmp, [node] + InOrder(t.right), b, key);
      assert a + InOrder(t) + b == a + InOrder(t.left) + ([node] + InOrder(t.right) + b);
    }

    lemma SearchRight(t: Shape, node: Node, p: Node?, a: seq<Node>, b: seq<Node>, key: Key)
      requires Comparator(cmp) && Searching(t, node, p, a, b, key) && cmp(key, node.key) > 0
      ensures t.Bin? && Searching(t.right, node.right, node, a + (InOrder(t.left) + [node]), b, key)
    {
      PlaceKey(cmp, InOrder(t.left), node, InOrder(t.right), key);
      AllBelowJoin(cmp, a, InOrder(t.left) + [node], key);
      assert a + InOrder(t) + b == a + (InOrder(t.left) + [node]) + InOrder(t.right) + b;
    }

    method LookupNode(key: Key) returns (r: Node?)
      requires Valid()
      ensures r != null ==> r in Contents() && cmp(key, r.key) == 0
      ensures r == null ==> forall n | n in Contents() :: cmp(key, n.key) != 0
    {
      hide Sorted, AllBelow, AllBeyond, Searching, InOrder;
      SearchStart(key);
      var node := root;
      ghost var p: Node? := null;
      ghost var t := shape;
      ghost var a: seq<Node>, b: seq<Node> := [], [];
      while node != null
        invariant Searching(t, node, p, a, b, key)
        decreases t
      {
        var diff := cmp(key, node.key);
        if diff == 0 {
          SearchHit(t, node, p, a, b, key);
          return node;
        } else if diff < 0 {
          SearchLeft(t, node, p, a, b, key);
          b, p, t, node := [node] + InOrder(t.right) + b, node, t.left, node.left;
        } else {
          SearchRight(t, node, p, a, b, key);
          a, p, t, node := a + (InOrder(t.left) + [node]), node, t.right, node.right;
        }
      }
      r := null;
      SearchMiss(t, p, a, b, key);
    }

    /** avl_tree_remove: by key. Of several equal keys one is removed. */
    method Remove(key: Key) returns (found: bool, ghost k: nat)
      requires Valid()
      modifies this, Nodes(shape)
      ensures Valid()
      ensures found <==> exists n :: n in old(Contents()) && cmp(key, n.key) == 0
      ensures found ==> var was := old(Contents());
                k < |was| && cmp(key, was[k].key) == 0 && Contents() == was[..k] + was[k + 1..]
      ensures !found ==> Contents() == old(Contents())
    {
      k := 0;
      assert allocated(Nodes(shape));
      var node := LookupNode(key);
      if node == null {
        return false, 0;
      }
      InOrderNodes(shape, node);
      k := RemoveNode(node);
      found := true;
    }

    method FillArray(n: Node?, a: array<Key>, index: nat, ghost t: Shape, ghost p: Node?) returns (next: nat)
      requires Sound(t, n, p) && index + |InOrder(t)| <= a.Length
      modifies a
      ensures next == index + |InOrder(t)|
      ensures forall i | 0 <= i < |InOrder(t)| :: a[index + i] == InOrder(t)[i].key
      ensures forall i | 0 <= i < a.Length && !(index <= i < next) :: a[i] == old(a[i])
      decreases t
    {
      next := index;
      if n != null {
        assert allocated(Nodes(t.right)) && allocated(Nodes(t.left));
        next := FillArray(n.left, a, next, t.left, n);
        a[next] := n.key;
        next := next + 1;
        next := FillArray(n.right, a, next, t.right, n);
      }
    }

    /** All keys in order. */
    method ToArray() returns (a: array<Key>)
      requires Valid()
      ensures fresh(a) && a.Length == numNodes
      ensures forall i | 0 <= i < a.Length :: a[i] == Contents()[i].key
      ensures forall i, j | 0 <= i < j < a.Length :: cmp(a[i], a[j]) <= 0
    {
      a := new Key[numNodes];
      var end := FillArray(root, a, 0, shape, null);
    }
  }
}
