/**
 The shape of an AVL tree and of the path from a node to the root.

 A `Shape` is the tree below a pointer; a `Path` is everything above it. The links and the
 stored heights live in the nodes; `Sound` and `Linked` say when they agree with a shape and
 with a path. `Sound` demands exact heights and balance; `Linked` demands both of the subtrees
 hanging off the path and neither of the nodes on the path.
 */
module AvlShapes {
  import opened Ordering

  type Key = Item
  type Value = int

  datatype Side = Left | Right {
    function Other(): Side {
      if Left? then Right else Left
    }
  }

  class Node {
    const key: Key
    const value: Value
    var left: Node?
    var right: Node?
    var parent: Node?
    var height: int

    constructor (key: Key, value: Value, parent: Node?)
      ensures this.key == key && this.value == value && this.parent == parent
      ensures left == null && right == null && height == 1
    {
      this.key := key;
      this.value := value;
      this.parent := parent;
      left := null;
      right := null;
      height := 1;
    }

    function Child(side: Side): Node?
      reads this
    {
      if side.Left? then left else right
    }

    method SetChild(side: Side, n: Node?)
      modifies `left, `right
      ensures Child(side) == n && Child(side.Other()) == old(Child(side.Other()))
    {
      if side.Left? { left := n; } else { right := n; }
    }
  }

  datatype Shape = Nil | Bin(left: Shape, node: Node, right: Shape)

  datatype Path = Top | At(side: Side, node: Node, sibling: Shape, up: Path)

  // ---------------------------------------------------------------- shapes alone

  ghost function Nodes(t: Shape): set<Node> {
    match t
    case Nil => {}
    case Bin(l, m, r) => Nodes(l) + {m} + Nodes(r)
  }

  ghost function InOrder(t: Shape): seq<Node> {
    match t
    case Nil => []
    case Bin(l, m, r) => InOrder(l) + [m] + InOrder(r)
  }

  function Max(a: int, b: int): int {
    if a > b then a else b
  }

  function Min(a: int, b: int): int {
    if a > b then b else a
  }

  ghost function H(t: Shape): nat {
    match t
    case Nil => 0
    case Bin(l, _, r) => 1 + Max(H(l), H(r))
  }

  /** No node occurs twice. */
  ghost predicate Distinct(t: Shape) {
    match t
    case Nil => true
    case Bin(l, m, r) =>
      m !in Nodes(l) && m !in Nodes(r) && Nodes(l) !! Nodes(r) && Distinct(l) && Distinct(r)
  }

  predicate Near(a: int, b: int) {
    -1 <= a - b <= 1
  }

  /** The tree with `x` on side `s` of `m` and `y` on the other. */
  ghost function Mk(s: Side, x: Shape, m: Node, y: Shape): Shape {
    if s.Left? then Bin(x, m, y) else Bin(y, m, x)
  }

  // ---------------------------------------------------------------- paths alone

  ghost function PathNodes(c: Path): set<Node> {
    match c
    case Top => {}
    case At(_, m, sibling, up) => {m} + Nodes(sibling) + PathNodes(up)
  }

  /** The nodes before the hole of the path, in order. */
  ghost function Before(c: Path): seq<Node> {
    match c
    case Top => []
    case At(Left, _, _, up) => Before(up)
    case At(Right, m, sibling, up) => Before(up) + InOrder(sibling) + [m]
  }

  ghost function After(c: Path): seq<Node> {
    match c
    case Top => []
    case At(Left, m, sibling, up) => [m] + InOrder(sibling) + After(up)
    case At(Right, _, _, up) => After(up)
  }

  /** The path adds no node twice to a hole filled with the nodes `s`. */
  ghost predicate Apart(c: Path, s: set<Node>) {
    match c
    case Top => true
    case At(_, m, sibling, up) =>
      m !in s && m !in Nodes(sibling) && Nodes(sibling) !! s && Distinct(sibling) &&
      Apart(up, s + {m} + Nodes(sibling))
  }

  /** Every node of the path would be balanced if the hole had height `h`. */
  ghost predicate PathNear(c: Path, h: int) {
    match c
    case Top => true
    case At(_, _, sibling, up) =>
      Near(H(sibling), h) && PathNear(up, 1 + Max(h, H(sibling)))
  }

  ghost function Join(inner: Path, outer: Path): Path {
    match inner
    case Top => outer
    case At(s, m, sibling, up) => At(s, m, sibling, Join(up, outer))
  }

  ghost function Sub(t: Shape, s: Side): Shape
    requires t.Bin?
  {
    if s.Left? then t.left else t.right
  }

  lemma MkFacts(s: Side, x: Shape, m: Node, y: Shape)
    ensures Nodes(Mk(s, x, m, y)) == Nodes(x) + {m} + Nodes(y)
    ensures H(Mk(s, x, m, y)) == 1 + Max(H(x), H(y))
    ensures Distinct(Mk(s, x, m, y)) <==>
            (m !in Nodes(x) && m !in Nodes(y) && Nodes(x) !! Nodes(y) && Distinct(x) && Distinct(y))
  {
  }

  lemma {:induction false} ApartDisjoint(c: Path, s: set<Node>)
    requires Apart(c, s)
    ensures PathNodes(c) !! s
  {
    if c.At? {
      ApartDisjoint(c.up, s + {c.node} + Nodes(c.sibling));
    }
  }

  /** The five pieces of a rotation share no node. */
  ghost predicate Separate(l: Shape, n: Node, a: Shape, g: Node, b: Shape) {
    && n != g
    && n !in Nodes(l) && n !in Nodes(a) && n !in Nodes(b)
    && g !in Nodes(l) && g !in Nodes(a) && g !in Nodes(b)
    && Nodes(l) !! Nodes(a) && Nodes(l) !! Nodes(b) && Nodes(a) !! Nodes(b)
    && Distinct(l) && Distinct(a) && Distinct(b)
  }

  ghost function Pieces(l: Shape, n: Node, a: Shape, g: Node, b: Shape): set<Node> {
    Nodes(l) + {n, g} + Nodes(a) + Nodes(b)
  }

  lemma PartsBefore(d: Side, l: Shape, n: Node, a: Shape, g: Node, b: Shape)
    ensures Nodes(Mk(d, l, n, Mk(d, a, g, b))) == Pieces(l, n, a, g, b)
    ensures Distinct(Mk(d, l, n, Mk(d, a, g, b))) <==> Separate(l, n, a, g, b)
  {
    MkFacts(d, a, g, b);
    MkFacts(d, l, n, Mk(d, a, g, b));
  }

  lemma PartsAfter(d: Side, l: Shape, n: Node, a: Shape, g: Node, b: Shape)
    ensures Nodes(Mk(d, Mk(d, l, n, a), g, b)) == Pieces(l, n, a, g, b)
    ensures Distinct(Mk(d, Mk(d, l, n, a), g, b)) <==> Separate(l, n, a, g, b)
  {
    MkFacts(d, l, n, a);
    MkFacts(d, Mk(d, l, n, a), g, b);
  }

  /** The tree after a double rotation of `Mk(d, l, n, r)`. */
  ghost function Doubled(d: Side, l: Shape, n: Node, r: Shape): Shape
    requires r.Bin? && Sub(r, d).Bin?
  {
    var m := Sub(r, d);
    Mk(d, Mk(d, l, n, Sub(m, d)), m.node, Mk(d, Sub(m, d.Other()), r.node, Sub(r, d.Other())))
  }

  lemma DoubleNodes(d: Side, r: Shape)
    requires r.Bin? && Sub(r, d).Bin?
    ensures var m := Sub(r, d);
            m.node in Nodes(r) && r.node in Nodes(r) &&
            Nodes(Sub(m, d)) <= Nodes(r) && Nodes(Sub(m, d.Other())) <= Nodes(r)
  {
    assert Nodes(Sub(r, d)) <= Nodes(r);
  }

  lemma DoubleHeights(d: Side, l: Shape, r: Shape)
    requires r.Bin? && Sub(r, d).Bin?
    requires H(r) == H(l) + 2 && H(Sub(r, d.Other())) < H(Sub(r, d))
    requires Near(H(Sub(r, d)), H(Sub(r, d.Other())))
    requires var m := Sub(r, d); Near(H(Sub(m, d)), H(Sub(m, d.Other())))
    ensures var m, z := Sub(r, d), Sub(r, d.Other());
            var x, y := Sub(m, d), Sub(m, d.Other());
            && Near(H(y), H(z)) && Near(H(l), H(x)) && H(Mk(d, y, r.node, z)) == H(m) == H(l) + 1
            && 1 + Max(H(l), H(x)) == H(m)
    {
    }

  /** The first of its two rotations happens below `n`. */
  lemma DoubleInner(d: Side, l: Shape, n: Node, r: Shape, c: Path)
    requires r.Bin? && Sub(r, d).Bin?
    requires Distinct(Mk(d, l, n, r)) && Apart(c, Nodes(Mk(d, l, n, r)))
    ensures var m, z := Sub(r, d), Sub(r, d.Other());
            var x, y := Sub(m, d), Sub(m, d.Other());
            Separate(z, r.node, y, m.node, x) &&
            Apart(At(d.Other(), n, l, c), Pieces(z, r.node, y, m.node, x))
  {
    var m, z := Sub(r, d), Sub(r, d.Other());
    var x, y := Sub(m, d), Sub(m, d.Other());
    var e := d.Other();
    MkFacts(d, l, n, r);
    assert r == Mk(e, z, r.node, Mk(e, y, m.node, x));
    PartsBefore(e, z, r.node, y, m.node, x);
    assert Nodes(Mk(d, l, n, r)) == Pieces(z, r.node, y, m.node, x) + {n} + Nodes(l);
  }

  /** The second one works on the same nodes. */
  lemma DoubleOuter(d: Side, l: Shape, n: Node, r: Shape, c: Path)
    requires r.Bin? && Sub(r, d).Bin?
    requires Distinct(Mk(d, l, n, r)) && Apart(c, Nodes(Mk(d, l, n, r)))
    ensures var m, z := Sub(r, d), Sub(r, d.Other());
            var x, r2 := Sub(m, d), Mk(d, Sub(m, d.Other()), r.node, z);
            Separate(l, n, x, m.node, r2) && Apart(c, Pieces(l, n, x, m.node, r2)) &&
            Nodes(Doubled(d, l, n, r)) == Nodes(Mk(d, l, n, r)) && Distinct(Doubled(d, l, n, r))
  {
    var m, z := Sub(r, d), Sub(r, d.Other());
    var x, y := Sub(m, d), Sub(m, d.Other());
    var e := d.Other();
    MkFacts(d, l, n, r);
    assert r == Mk(e, z, r.node, Mk(e, y, m.node, x));
    PartsBefore(e, z, r.node, y, m.node, x);
    var mid := Mk(d, x, m.node, Mk(d, y, r.node, z));
    assert mid == Mk(e, Mk(e, z, r.node, y), m.node, x);
    PartsAfter(e, z, r.node, y, m.node, x);
    MkFacts(d, l, n, mid);
    PartsBefore(d, l, n, x, m.node, Mk(d, y, r.node, z));
    PartsAfter(d, l, n, x, m.node, Mk(d, y, r.node, z));
  }

  lemma {:induction false} ApartWith(c: Path, s: set<Node>, x: Node)
    requires Apart(c, s) && x !in PathNodes(c)
    ensures Apart(c, s + {x})
  {
    if c.At? {
      ApartWith(c.up, s + {c.node} + Nodes(c.sibling), x);
      assert s + {c.node} + Nodes(c.sibling) + {x} == s + {x} + {c.node} + Nodes(c.sibling);
    }
  }

  /** A rotation keeps the in-order sequence. */
  lemma RotationKeepsOrder(d: Side, l: Shape, n: Node, a: Shape, g: Node, b: Shape)
    ensures InOrder(Mk(d, Mk(d, l, n, a), g, b)) == InOrder(Mk(d, l, n, Mk(d, a, g, b)))
  {
  }

  lemma DoubledKeepsOrder(d: Side, l: Shape, n: Node, r: Shape)
    requires r.Bin? && Sub(r, d).Bin?
    ensures InOrder(Doubled(d, l, n, r)) == InOrder(Mk(d, l, n, r))
  {
    var m, z := Sub(r, d), Sub(r, d.Other());
    var x, y := Sub(m, d), Sub(m, d.Other());
    RotationKeepsOrder(d.Other(), z, r.node, y, m.node, x);
    RotationKeepsOrder(d, l, n, x, m.node, Mk(d, y, r.node, z));
  }

  /** What rebalancing may do to the tree `was`: only the shape and at most one level of height change. */
  ghost predicate Rebalanced(was: Shape, t: Shape)
    requires was.Bin?
  {
    && t.Bin? && Nodes(t) == Nodes(was) && InOrder(t) == InOrder(was) && Distinct(t)
    && (if Near(H(was.left), H(was.right)) then t == was
        else H(was) - 1 <= H(t) <= H(was))
  }

  lemma OnceRebalanced(d: Side, l: Shape, n: Node, r: Shape)
    requires H(r) == H(l) + 2 && H(Sub(r, d.Other())) >= H(Sub(r, d))
    requires Near(H(Sub(r, d)), H(Sub(r, d.Other()))) && Distinct(Mk(d, l, n, r))
    ensures Rebalanced(Mk(d, l, n, r), Mk(d, Mk(d, l, n, Sub(r, d)), r.node, Sub(r, d.Other())))
  {
    var a, b := Sub(r, d), Sub(r, d.Other());
    assert r == Mk(d, a, r.node, b);
    PartsBefore(d, l, n, a, r.node, b);
    PartsAfter(d, l, n, a, r.node, b);
    RotationKeepsOrder(d, l, n, a, r.node, b);
    MkFacts(d, l, n, a);
    MkFacts(d, Mk(d, l, n, a), r.node, b);
  }

  lemma TwiceRebalanced(d: Side, l: Shape, n: Node, r: Shape)
    requires H(r) == H(l) + 2 && H(Sub(r, d.Other())) < H(Sub(r, d))
    requires Near(H(Sub(r, d)), H(Sub(r, d.Other())))
    requires var m := Sub(r, d); Near(H(Sub(m, d)), H(Sub(m, d.Other())))
    requires Distinct(Mk(d, l, n, r))
    ensures Rebalanced(Mk(d, l, n, r), Doubled(d, l, n, r))
  {
    var m, z := Sub(r, d), Sub(r, d.Other());
    DoubleOuter(d, l, n, r, Top);
    DoubledKeepsOrder(d, l, n, r);
    DoubleHeights(d, l, r);
    MkFacts(d, l, n, Sub(m, d));
    MkFacts(d, Mk(d, l, n, Sub(m, d)), m.node, Mk(d, Sub(m, d.Other()), r.node, z));
  }

  /** The lowest node of a path with the hole filled by `f`. */
  ghost function Closed(c: Path, f: Shape): Shape
    requires c.At?
  {
    Mk(c.side, f, c.node, c.sibling)
  }

  /** Climbing one node moves it from the path into the filling and changes nothing else. */
  lemma Climb(c: Path, f: Shape)
    requires c.At? && Distinct(f) && Apart(c, Nodes(f))
    ensures Distinct(Closed(c, f)) && Apart(c.up, Nodes(Closed(c, f)))
    ensures PathNodes(c.up) + Nodes(Closed(c, f)) == PathNodes(c) + Nodes(f)
    ensures Before(c.up) + InOrder(Closed(c, f)) + After(c.up) == Before(c) + InOrder(f) + After(c)
  {
    MkFacts(c.side, f, c.node, c.sibling);
    assert Nodes(Closed(c, f)) == Nodes(f) + {c.node} + Nodes(c.sibling);
    ClimbOrder(c, f);
  }

  lemma ClimbOrder(c: Path, f: Shape)
    requires c.At?
    ensures Before(c.up) + InOrder(Closed(c, f)) + After(c.up) == Before(c) + InOrder(f) + After(c)
  {
  }

  /** One level of height error in the hole stays at most one level above. */
  lemma ClimbHeight(c: Path, f: Shape, h: int, t: Shape)
    requires c.At? && PathNear(c, h) && Near(H(f), h)
    requires Rebalanced(Closed(c, f), t)
    ensures PathNear(c.up, 1 + Max(h, H(c.sibling))) && Near(H(t), 1 + Max(h, H(c.sibling)))
  {
    MkFacts(c.side, f, c.node, c.sibling);
  }

  // ---------------------------------------------------------------- agreement with the heap

  /** The tree rooted at `n` below parent `p` has shape `t`, exact heights and AVL balance. */
  ghost predicate Sound(t: Shape, n: Node?, p: Node?)
    reads Nodes(t)
  {
    match t
    case Nil => n == null
    case Bin(l, m, r) =>
      n == m && m.parent == p && m.height == H(t) && Near(H(l), H(r)) &&
      Sound(l, m.left, m) && Sound(r, m.right, m)
  }

  /** The pointer the hole of the path stands for. */
  ghost function Hole(c: Path, root: Node?): Node?
    reads if c.At? then {c.node} else {}
  {
    match c
    case Top => root
    case At(s, m, _, _) => m.Child(s)
  }

  /** `p` is the node above the hole, and the links along the path are right. */
  ghost predicate Linked(c: Path, p: Node?, root: Node?)
    reads PathNodes(c)
  {
    match c
    case Top => p == null
    case At(s, m, sibling, up) =>
      assert up.At? ==> up.node in PathNodes(up);
      p == m && Sound(sibling, m.Child(s.Other()), m) &&
      Hole(up, root) == m && Linked(up, m.parent, root)
  }

  lemma SoundSubs(t: Shape, n: Node?, p: Node?, d: Side)
    requires Sound(t, n, p) && t.Bin?
    ensures n == t.node && n.parent == p
    ensures Sound(Sub(t, d), t.node.Child(d), t.node)
    ensures Sound(Sub(t, d.Other()), t.node.Child(d.Other()), t.node)
    ensures H(t) == 1 + Max(H(Sub(t, d)), H(Sub(t, d.Other())))
    ensures Near(H(Sub(t, d)), H(Sub(t, d.Other())))
  {
  }

  /** Everything `Sound` asks for except the stored height of the top node. */
  ghost predicate Almost(t: Shape, n: Node, p: Node?)
    reads Nodes(t)
  {
    t.Bin? && n == t.node && n.parent == p && Near(H(t.left), H(t.right)) &&
    Sound(t.left, n.left, n) && Sound(t.right, n.right, n)
  }

  lemma AlmostMk(s: Side, x: Shape, m: Node, y: Shape, p: Node?)
    requires m.parent == p && Near(H(x), H(y))
    requires Sound(x, m.Child(s), m) && Sound(y, m.Child(s.Other()), m)
    ensures Almost(Mk(s, x, m, y), m, p)
  {
  }

  /** The tree is `t` below the pointer at the hole of `c`, and `c` above it, and is a right AVL tree. */
  ghost predicate Focused(c: Path, t: Shape, root: Node?, p: Node?)
    reads PathNodes(c), Nodes(t), if c.At? then {c.node} else {}
  {
    Linked(c, p, root) && Sound(t, Hole(c, root), p) &&
    Distinct(t) && Apart(c, Nodes(t)) && PathNear(c, H(t))
  }

  /** Going down one node moves it from the filling to the path and changes nothing else. */
  lemma Descend(c: Path, t: Shape, d: Side, root: Node?, p: Node?)
    requires t.Bin? && Focused(c, t, root, p)
    ensures var n, f := t.node, Sub(t, d); var c' := At(d, n, Sub(t, d.Other()), c);
            && n == Hole(c, root) && n.parent == p && Closed(c', f) == t
            && Focused(c', f, root, n)
            && PathNodes(c') + Nodes(f) == PathNodes(c) + Nodes(t)
            && Before(c') + InOrder(f) + After(c') == Before(c) + InOrder(t) + After(c)
  {
    var n, f := t.node, Sub(t, d);
    var c' := At(d, n, Sub(t, d.Other()), c);
    SoundSubs(t, n, p, d);
    MkFacts(d, f, n, Sub(t, d.Other()));
    assert Nodes(f) + {n} + Nodes(Sub(t, d.Other())) == Nodes(t);
    ClimbOrder(c', f);
  }

  /** Every node of the tree has its path. */
  lemma {:induction false} Locate(c: Path, t: Shape, root: Node?, p: Node?, x: Node)
    returns (c1: Path, f: Shape)
    requires Focused(c, t, root, p) && x in Nodes(t)
    ensures f.Bin? && f.node == x && Hole(c1, root) == x && Focused(c1, f, root, x.parent)
    ensures PathNodes(c1) + Nodes(f) == PathNodes(c) + Nodes(t)
    ensures Before(c1) + InOrder(f) + After(c1) == Before(c) + InOrder(t) + After(c)
    decreases t
  {
    if x == t.node {
      c1, f := c, t;
    } else {
      var d := if x in Nodes(t.left) then Left else Right;
      Descend(c, t, d, root, p);
      c1, f := Locate(At(d, t.node, Sub(t, d.Other()), c), Sub(t, d), root, t.node, x);
    }
  }

  lemma SoundMk(s: Side, x: Shape, m: Node, y: Shape, p: Node?)
    requires m.parent == p && m.height == 1 + Max(H(x), H(y)) && Near(H(x), H(y))
    requires Sound(x, m.Child(s), m) && Sound(y, m.Child(s.Other()), m)
    ensures Sound(Mk(s, x, m, y), m, p)
  {
  }

  // ---------------------------------------------------------------- what a change leaves alone

  /** A subtree, the pointer to it, and the parent it hung from before a change. */
  datatype Spot = Spot(tree: Shape, node: Node?, parent: Node?)

  /** A path, the node above its hole, the tree's root pointer before and after, what fills the hole. */
  datatype Place = Place(path: Path, parent: Node?, rootBefore: Node?, root: Node?, inside: set<Node>)

  /** Nothing in a subtree was touched. */
  twostate lemma Untouched(x: Spot)
    requires old(allocated(Nodes(x.tree))) && forall o: Node | o in Nodes(x.tree) :: unchanged(o)
    requires old(Sound(x.tree, x.node, x.parent))
    ensures Sound(x.tree, x.node, x.parent)
  {
  }

  /** Only the parent link of the top node of a subtree was redirected. */
  twostate lemma Rehung(x: Spot)
    requires Distinct(x.tree) && old(Sound(x.tree, x.node, x.parent))
    requires old(allocated(Nodes(x.tree)))
    requires forall o: Node | o in Nodes(x.tree) && o != x.node :: unchanged(o)
    requires x.node != null ==>
               x.node.left == old(x.node.left) && x.node.right == old(x.node.right) &&
               x.node.height == old(x.node.height)
    ensures Sound(x.tree, x.node, if x.node != null then x.node.parent else null)
  {
    if x.tree.Bin? {
      Untouched(Spot(x.tree.left, old(x.node.left), x.node));
      Untouched(Spot(x.tree.right, old(x.node.right), x.node));
    }
  }

  /** Along a path only the hole and the height of the lowest node were touched. */
  twostate lemma StaysLinked(x: Place)
    requires Apart(x.path, x.inside) && old(Linked(x.path, x.parent, x.rootBefore))
    requires x.path.At? ==>
               var m, side := x.path.node, x.path.side.Other();
               x.root == x.rootBefore && m.parent == old(m.parent) &&
               m.Child(side) == old(m.Child(side))
    requires old(allocated(PathNodes(x.path)))
    requires forall o: Node | o in PathNodes(x.path) && (x.path.At? ==> o != x.path.node) :: unchanged(o)
    ensures Linked(x.path, x.parent, x.root)
  {
    var c := x.path;
    if c.At? {
      ApartDisjoint(c.up, x.inside + {c.node} + Nodes(c.sibling));
      Untouched(Spot(c.sibling, old(c.node.Child(c.side.Other())), c.node));
    }
  }

  // ---------------------------------------------------------------- height bound

  function Fib(n: nat): nat {
    if n < 2 then n else Fib(n - 1) + Fib(n - 2)
  }

  lemma {:induction false} FibMonotone(m: nat, n: nat)
    requires m <= n
    ensures Fib(m) <= Fib(n)
    decreases n
  {
    if m < n {
      FibMonotone(m, n - 1);
      if n < 2 {
        assert Fib(n - 1) <= Fib(n);
      }
    }
  }

  lemma FibSmall()
    ensures Fib(2) == 1 && H(Nil) == 0
  {
  }

  /** With siblings at most one apart in height the bounds of the two sides add up to the bound of the tree. */
  lemma FibStep(t: Shape, left: nat, right: nat)
    requires t.Bin? && H(t.left) == left && H(t.right) == right && left - 1 <= right <= left + 1
    ensures Fib(H(t) + 2) <= Fib(left + 2) + Fib(right + 2)
  {
    var tall, low := Max(left, right), Min(left, right);
    FibMonotone(tall + 1, low + 2);
    assert Fib(tall + 3) == Fib(tall + 2) + Fib(tall + 1);
  }

  /** A right AVL tree of height `h` has at least Fib(h + 2) - 1 nodes. */
  lemma {:induction false} HeightBound(t: Shape, n: Node?, p: Node?)
    requires Sound(t, n, p)
    ensures |InOrder(t)| >= Fib(H(t) + 2) - 1
    decreases t
  {
    hide Fib, H;
    if t.Bin? {
      HeightBound(t.left, n.left, n);
      HeightBound(t.right, n.right, n);
      FibStep(t, H(t.left), H(t.right));
    } else {
      FibSmall();
    }
  }

  // ---------------------------------------------------------------- key order

  ghost predicate Sorted(cmp: Comparison, s: seq<Node>) {
    forall i, j | 0 <= i < j < |s| :: Leq(cmp, s[i].key, s[j].key)
  }

  /** `key` belongs after every node of `s`. */
  ghost predicate AllUpTo(cmp: Comparison, s: seq<Node>, key: Key) {
    forall i | 0 <= i < |s| :: Leq(cmp, s[i].key, key)
  }

  /** `key` belongs before every node of `s`, and equals none. */
  ghost predicate AllBeyond(cmp: Comparison, s: seq<Node>, key: Key) {
    forall i | 0 <= i < |s| :: !Leq(cmp, s[i].key, key)
  }

  /** Every node of `s` comes strictly before `key`. */
  ghost predicate AllBelow(cmp: Comparison, s: seq<Node>, key: Key) {
    forall i | 0 <= i < |s| :: !Leq(cmp, key, s[i].key)
  }

  lemma SplitSorted(cmp: Comparison, a: seq<Node>, m: Node, b: seq<Node>)
    requires Sorted(cmp, a + [m] + b)
    ensures Sorted(cmp, a) && Sorted(cmp, b)
    ensures forall i | 0 <= i < |a| :: Leq(cmp, a[i].key, m.key)
    ensures forall i | 0 <= i < |b| :: Leq(cmp, m.key, b[i].key)
  {
    var s := a + [m] + b;
    assert forall i | 0 <= i < |a| :: s[i] == a[i];
    assert s[|a|] == m;
    assert forall i | 0 <= i < |b| :: s[|a| + 1 + i] == b[i];
  }

  /** One comparison places a key relative to a whole side of a search tree. */
  lemma PlaceKey(cmp: Comparison, a: seq<Node>, m: Node, b: seq<Node>, key: Key)
    requires Comparator(cmp) && Sorted(cmp, a + [m] + b)
    ensures Sorted(cmp, a) && Sorted(cmp, b)
    ensures cmp(key, m.key) < 0 ==> AllBeyond(cmp, [m] + b, key)
    ensures cmp(key, m.key) >= 0 ==> AllUpTo(cmp, a + [m], key)
    ensures cmp(key, m.key) > 0 ==> AllBelow(cmp, a + [m], key)
  {
    SplitSorted(cmp, a, m, b);
    Signs(cmp, key, m.key);
  }

  lemma AllUpToJoin(cmp: Comparison, a: seq<Node>, b: seq<Node>, key: Key)
    requires AllUpTo(cmp, a, key) && AllUpTo(cmp, b, key)
    ensures AllUpTo(cmp, a + b, key)
  {
  }

  lemma AllBeyondJoin(cmp: Comparison, a: seq<Node>, b: seq<Node>, key: Key)
    requires AllBeyond(cmp, a, key) && AllBeyond(cmp, b, key)
    ensures AllBeyond(cmp, a + b, key)
  {
  }

  lemma AllBelowJoin(cmp: Comparison, a: seq<Node>, b: seq<Node>, key: Key)
    requires AllBelow(cmp, a, key) && AllBelow(cmp, b, key)
    ensures AllBelow(cmp, a + b, key)
  {
  }

  lemma NoneEqual(cmp: Comparison, a: seq<Node>, b: seq<Node>, key: Key)
    requires Comparator(cmp) && AllBelow(cmp, a, key) && AllBeyond(cmp, b, key)
    ensures forall n | n in a + b :: cmp(key, n.key) != 0
  {
    forall n | n in a + b ensures cmp(key, n.key) != 0 {
      Signs(cmp, key, n.key);
    }
  }

  lemma {:induction false} InOrderNodes(t: Shape, x: Node)
    ensures x in InOrder(t) <==> x in Nodes(t)
  {
    if t.Bin? {
      InOrderNodes(t.left, x);
      InOrderNodes(t.right, x);
    }
  }

  lemma CutAt(a: seq<Node>, m: Node, b: seq<Node>)
    ensures var s := a + [m] + b; s[..|a|] == a && s[|a|] == m && s[|a| + 1..] == b
  {
  }

  lemma Surrounded(c: Path, f: Shape)
    requires f.Bin?
    ensures Before(c) + InOrder(f) + After(c) ==
            (Before(c) + InOrder(f.left)) + [f.node] + (InOrder(f.right) + After(c))
  {
  }

  /** Going the way the comparison says keeps the key between the two sides of the path. */
  lemma DescendPlaces(cmp: Comparison, c: Path, t: Shape, key: Key, d: Side)
    requires Comparator(cmp) && t.Bin? && Sorted(cmp, InOrder(t))
    requires AllUpTo(cmp, Before(c), key) && AllBeyond(cmp, After(c), key)
    requires d == if cmp(key, t.node.key) < 0 then Left else Right
    ensures var c' := At(d, t.node, Sub(t, d.Other()), c);
            AllUpTo(cmp, Before(c'), key) && AllBeyond(cmp, After(c'), key)
    ensures Sorted(cmp, InOrder(Sub(t, d)))
  {
    var a, m, b := InOrder(t.left), t.node, InOrder(t.right);
    PlaceKey(cmp, a, m, b, key);
    if d.Left? {
      AllBeyondJoin(cmp, [m] + b, After(c), key);
    } else {
      AllUpToJoin(cmp, Before(c), a + [m], key);
      assert Before(c) + (a + [m]) == Before(c) + a + [m];
    }
  }

  lemma InsertSorted(cmp: Comparison, a: seq<Node>, b: seq<Node>, n: Node)
    requires Comparator(cmp) && Sorted(cmp, a + b)
    requires AllUpTo(cmp, a, n.key) && AllBeyond(cmp, b, n.key)
    ensures Sorted(cmp, a + [n] + b)
  {
    var s, was := a + [n] + b, a + b;
    forall i, j | 0 <= i < j < |s| ensures Leq(cmp, s[i].key, s[j].key) {
      var i0, j0 := if i < |a| then i else i - 1, if j < |a| then j else j - 1;
      if i != |a| && j != |a| {
        assert s[i] == was[i0] && s[j] == was[j0];
      }
    }
  }

  lemma RemoveSorted(cmp: Comparison, a: seq<Node>, n: Node, b: seq<Node>)
    requires Sorted(cmp, a + [n] + b)
    ensures Sorted(cmp, a + b)
  {
    var s, was := a + b, a + [n] + b;
    forall i, j | 0 <= i < j < |s| ensures Leq(cmp, s[i].key, s[j].key) {
      var i0, j0 := if i < |a| then i else i + 1, if j < |a| then j else j + 1;
      assert s[i] == was[i0] && s[j] == was[j0];
    }
  }
}
