/**
 Reference-counted binomial trees.

 A tree's value, order and subtrees never change after it is built, so they are constants; its
 reference count changes, and `live` turns false when it is freed. Trees share subtrees.

 `Counted(live, held, spare)` is the memory invariant: `live` are the trees not yet freed,
 `held` are the references kept outside trees (root arrays and local variables), and every
 count is the number of references to the tree. `spare` is a tree just built that nobody
 refers to yet.
 */
module BinomialTrees {
  import opened Ordering
  import opened Powers

  type Value = Item

  class Tree {
    const value: Value
    const order: nat
    const subtrees: seq<Tree>
    var refcount: int
    var live: bool

    constructor (value: Value, order: nat, subtrees: seq<Tree>, refcount: int)
      ensures this.value == value && this.order == order && this.subtrees == subtrees
      ensures this.refcount == refcount && live
    {
      this.value := value;
      this.order := order;
      this.subtrees := subtrees;
      this.refcount := refcount;
      live := true;
    }
  }

  // ---------------------------------------------------------------- pointers between trees

  /** Subtree `i` has order `i`, as in any binomial tree. */
  ghost predicate Layered(t: Tree) {
    |t.subtrees| == t.order && forall i | 0 <= i < |t.subtrees| :: t.subtrees[i].order == i
  }

  ghost function One(t: Tree?): multiset<Tree> {
    if t == null then multiset{} else multiset{t}
  }

  /** The references in an array, null entries aside. */
  ghost function Refs(ts: seq<Tree?>): multiset<Tree> {
    if ts == [] then multiset{} else One(ts[0]) + Refs(ts[1..])
  }

  lemma Associate<T>(a: multiset<T>, b: multiset<T>, c: multiset<T>)
    ensures a + (b + c) == a + b + c
  {
  }

  lemma EmptySum<T>(a: multiset<T>)
    ensures multiset{} + a == a && a + multiset{} == a
  {
  }

  lemma {:induction false} RefsConcat(a: seq<Tree?>, b: seq<Tree?>)
    ensures Refs(a + b) == Refs(a) + Refs(b)
  {
    if a == [] {
      assert a + b == b;
      EmptySum(Refs(b));
    } else {
      var ab := a + b;
      assert ab[0] == a[0] && ab[1..] == a[1..] + b;
      RefsConcat(a[1..], b);
      assert Refs(ab) == One(a[0]) + (Refs(a[1..]) + Refs(b));
      Associate(One(a[0]), Refs(a[1..]), Refs(b));
    }
  }

  lemma {:induction false} RefsContain(ts: seq<Tree?>, x: Tree)
    ensures x in Refs(ts) <==> x in ts
  {
    if ts != [] {
      RefsContain(ts[1..], x);
      assert ts == [ts[0]] + ts[1..];
    }
  }

  /** How many subtree entries of the trees in `live` point to `x`. */
  ghost function Pointers(live: set<Tree>, x: Tree): nat {
    if live == {} then 0
    else
      var u :| u in live;
      Refs(u.subtrees)[x] + Pointers(live - {u}, x)
  }

  lemma {:induction false} PointersSplit(live: set<Tree>, u: Tree, x: Tree)
    requires u in live
    ensures Pointers(live, x) == Refs(u.subtrees)[x] + Pointers(live - {u}, x)
  {
    var v :| v in live && Pointers(live, x) == Refs(v.subtrees)[x] + Pointers(live - {v}, x);
    if v != u {
      PointersSplit(live - {v}, u, x);
      PointersSplit(live - {u}, v, x);
      assert live - {v} - {u} == live - {u} - {v};
    }
  }

  lemma {:induction false} PointerSource(live: set<Tree>, x: Tree)
    ensures Pointers(live, x) > 0 <==> exists u :: u in live && x in u.subtrees
  {
    if live != {} {
      var u :| u in live && Pointers(live, x) == Refs(u.subtrees)[x] + Pointers(live - {u}, x);
      PointerSource(live - {u}, x);
      RefsContain(u.subtrees, x);
    }
  }

  /** `live` is closed under subtrees and holds everything `held` refers to. */
  ghost predicate Closed(live: set<Tree>, held: multiset<Tree>) {
    && (forall u | u in live :: Layered(u))
    && (forall u, x | u in live && x in u.subtrees :: x in live)
    && (forall x | x in held :: x in live)
  }

  ghost predicate Counted(live: set<Tree>, held: multiset<Tree>, spare: Tree?)
    reads live
  {
    && Closed(live, held)
    && (forall x | x in live ::
          x.live && x.refcount == held[x] + Pointers(live, x) && (x.refcount > 0 || x == spare))
  }

  /** Every tree in memory is referred to from somewhere. */
  ghost predicate Grounded(live: set<Tree>, held: multiset<Tree>) {
    Closed(live, held) && forall x | x in live :: x in held || Pointers(live, x) > 0
  }

  lemma CountedGrounded(live: set<Tree>, held: multiset<Tree>)
    requires Counted(live, held, null)
    ensures Grounded(live, held)
  {
    forall x | x in live ensures x in held || Pointers(live, x) > 0 {
      assert held[x] + Pointers(live, x) > 0;
    }
  }

  ghost function MaxOrder(live: set<Tree>): (n: nat)
    ensures forall x | x in live :: x.order <= n
  {
    if live == {} then 0
    else
      var x :| x in live;
      var n := MaxOrder(live - {x});
      if x.order > n then x.order else n
  }

  lemma {:induction false} KeptAlive(a: set<Tree>, b: set<Tree>, held: multiset<Tree>, x: Tree)
    requires Grounded(a, held) && Closed(b, held) && x in a
    ensures x in b
    decreases MaxOrder(a) - x.order
  {
    if x !in held {
      PointerSource(a, x);
      var u :| u in a && x in u.subtrees;
      var i :| 0 <= i < |u.subtrees| && u.subtrees[i] == x;
      assert Layered(u) && x.order < u.order;
      KeptAlive(a, b, held, u);
    }
  }

  /** Nothing leaks and nothing is freed early: the held references alone fix which trees exist. */
  lemma LiveUnique(a: set<Tree>, b: set<Tree>, held: multiset<Tree>)
    requires Grounded(a, held) && Grounded(b, held)
    ensures a == b
  {
    forall x ensures x in a <==> x in b {
      if x in a { KeptAlive(a, b, held, x); }
      if x in b { KeptAlive(b, a, held, x); }
    }
  }

  // ---------------------------------------------------------------- binomial_tree_unref

  /** Removing an unreferenced tree turns its subtree entries into outstanding references. */
  lemma Retire(live: set<Tree>, held: multiset<Tree>, t: Tree)
    requires t in live && Closed(live, held) && t !in held && Pointers(live, t) == 0
    ensures forall x | x in live - {t} ::
              held[x] + Pointers(live, x) == (held + Refs(t.subtrees))[x] + Pointers(live - {t}, x)
    ensures Closed(live - {t}, held + Refs(t.subtrees))
  {
    PointerSource(live, t);
    forall x | x in live - {t}
      ensures held[x] + Pointers(live, x) == (held + Refs(t.subtrees))[x] + Pointers(live - {t}, x)
    {
      PointersSplit(live, t, x);
    }
    forall x | x in held + Refs(t.subtrees) ensures x in live - {t} {
      RefsContain(t.subtrees, x);
    }
  }

  lemma RefsFrom(ts: seq<Tree?>, i: nat, held: multiset<Tree>)
    requires i < |ts|
    ensures held + Refs(ts[i..]) == held + Refs(ts[i + 1..]) + One(ts[i])
  {
    assert ts[i..][1..] == ts[i + 1..];
  }

  /** `--tree->refcount`: a count that reaches zero leaves the subtree references outstanding. */
  /** A tree that is held is live and not the spare one without references. */
  lemma HeldLive(t: Tree, live: set<Tree>, held: multiset<Tree>, spare: Tree?)
    requires Counted(live, held + multiset{t}, spare)
    ensures t in live && t.refcount > 0
  {
    assert t in held + multiset{t};
  }

  method Decrement(t: Tree, ghost live: set<Tree>, ghost held: multiset<Tree>, ghost spare: Tree?)
    requires Counted(live, held + multiset{t}, spare)
    modifies t`refcount
    ensures t in live && t.refcount == old(t.refcount) - 1
    ensures t.refcount != 0 ==> Counted(live, held, spare)
    ensures t.refcount == 0 ==> Counted(live - {t}, held + Refs(t.subtrees), spare)
  {
    assert t in held + multiset{t};
    t.refcount := t.refcount - 1;
    if t.refcount == 0 {
      Retire(live, held, t);
    }
  }

  method Unref(t: Tree?, ghost live: set<Tree>, ghost held: multiset<Tree>, ghost spare: Tree?)
    returns (ghost rest: set<Tree>)
    requires Counted(live, held + One(t), spare)
    modifies live
    ensures rest <= live && Counted(rest, held, spare)
    ensures forall x | x in live - rest :: !x.live
    ensures spare in live && old(spare.refcount) == 0 ==> spare in rest && spare.refcount == 0
    decreases |live|, 0
  {
    hide Counted;
    rest := live;
    EmptySum(held);
    if t != null {
      assert allocated(live);
      HeldLive(t, live, held, spare);
      Decrement(t, live, held, spare);
      if t.refcount == 0 {
        rest := DropAll(t.subtrees, live - {t}, held, spare);
        Free(t, rest, held, spare);
      }
    }
  }

  method Free(t: Tree, ghost live: set<Tree>, ghost held: multiset<Tree>, ghost spare: Tree?)
    requires Counted(live, held, spare) && t !in live
    modifies t`live
    ensures Counted(live, held, spare) && !t.live
  {
    t.live := false;
  }

  /** Gives up every reference in an array. */
  method DropAll(ts: seq<Tree?>, ghost live: set<Tree>, ghost held: multiset<Tree>, ghost spare: Tree?)
    returns (ghost rest: set<Tree>)
    requires Counted(live, held + Refs(ts), spare)
    modifies live
    ensures rest <= live && Counted(rest, held, spare)
    ensures forall x | x in live - rest :: !x.live
    ensures spare in live && old(spare.refcount) == 0 ==> spare in rest && spare.refcount == 0
    decreases |live|, 1
  {
    rest := live;
    var i := 0;
    ghost var all := held + Refs(ts);
    while i < |ts|
      invariant 0 <= i <= |ts| && rest <= live && |rest| <= |live|
      invariant all == held + Refs(ts[i..]) && Counted(rest, all, spare)
      invariant forall x | x in live - rest :: !x.live
      invariant spare in live && old(spare.refcount) == 0 ==> spare in rest && spare.refcount == 0
    {
      RefsFrom(ts, i, held);
      all := held + Refs(ts[i + 1..]);
      ghost var before := rest;
      rest := Unref(ts[i], rest, all, spare);
      SmallerSubset(rest, before);
      i := i + 1;
    }
    assert all == held;
  }

  lemma SmallerSubset(a: set<Tree>, b: set<Tree>)
    requires a <= b
    ensures |a| <= |b|
  {
    assert b == a + (b - a);
  }

  // ---------------------------------------------------------------- binomial_tree_ref

  method Ref(t: Tree?, ghost live: set<Tree>, ghost held: multiset<Tree>, ghost spare: Tree?)
    requires Counted(live, held, spare) && (t != null ==> t in live)
    modifies live
    ensures Counted(live, held + One(t), if spare == t then null else spare)
  {
    EmptySum(held);
    if t != null {
      Increment(t, live, held, spare);
    }
  }

  method Increment(t: Tree, ghost live: set<Tree>, ghost held: multiset<Tree>, ghost spare: Tree?)
    requires Counted(live, held, spare) && t in live
    modifies t`refcount
    ensures t.refcount == old(t.refcount) + 1
    ensures Counted(live, held + multiset{t}, if spare == t then null else spare)
  {
    t.refcount := t.refcount + 1;
  }

  method RefAll(ts: seq<Tree>, ghost live: set<Tree>, ghost held: multiset<Tree>)
    requires Counted(live, held, null) && forall x | x in ts :: x in live
    modifies live
    ensures Counted(live, held + Refs(ts), null)
  {
    var i := 0;
    ghost var all := held;
    EmptySum(held);
    assert allocated(live);
    while i < |ts|
      invariant 0 <= i <= |ts|
      invariant all == held + Refs(ts[..i]) && Counted(live, all, null)
    {
      RefsUpTo(ts, i, held);
      Ref(ts[i], live, all, null);
      all := held + Refs(ts[..i + 1]);
      i := i + 1;
    }
    assert ts[..i] == ts;
  }

  lemma RefsUpTo(ts: seq<Tree?>, i: nat, held: multiset<Tree>)
    requires i < |ts|
    ensures held + Refs(ts[..i + 1]) == held + Refs(ts[..i]) + One(ts[i])
  {
    assert ts[..i + 1] == ts[..i] + [ts[i]];
    RefsConcat(ts[..i], [ts[i]]);
    EmptySum(One(ts[i]));
    assert Refs([ts[i]]) == One(ts[i]);
    Associate(held, Refs(ts[..i]), One(ts[i]));
  }

  /** A new tree turns references taken for it into subtree entries. */
  lemma Enlist(live: set<Tree>, held: multiset<Tree>, n: Tree, x: Tree)
    requires n !in live && Closed(live, held + Refs(n.subtrees)) && x in live
    ensures (held + Refs(n.subtrees))[x] + Pointers(live, x) == held[x] + Pointers(live + {n}, x)
  {
    assert live + {n} - {n} == live;
    PointersSplit(live + {n}, n, x);
  }

  lemma EnlistClosed(live: set<Tree>, held: multiset<Tree>, n: Tree)
    requires Closed(live, held + Refs(n.subtrees)) && n !in live && Layered(n)
    ensures Closed(live + {n}, held) && n !in held && Pointers(live + {n}, n) == 0
  {
    forall x | x in n.subtrees ensures x in live {
      RefsContain(n.subtrees, x);
      assert x in held + Refs(n.subtrees);
    }
    forall x | x in held ensures x in live {
      assert x in held + Refs(n.subtrees);
    }
    PointerSource(live + {n}, n);
  }

  // ---------------------------------------------------------------- contents

  /** A binomial tree all the way down. */
  ghost predicate Binomial(t: Tree)
    decreases t.order
  {
    Layered(t) && forall i | 0 <= i < |t.subtrees| :: Binomial(t.subtrees[i])
  }

  /** An array whose slot `i` is empty or holds a binomial tree of order `i`. */
  ghost predicate Slots(ts: seq<Tree?>) {
    forall i | 0 <= i < |ts| && ts[i] != null :: ts[i].order == i && Binomial(ts[i])
  }

  ghost function Vals(t: Tree): multiset<Value>
    requires Binomial(t)
    decreases t.order, 1
  {
    multiset{t.value} + Contents(t.subtrees)
  }

  ghost function ValsIf(t: Tree?): multiset<Value>
    decreases if t == null then 0 else t.order, 2
  {
    if t != null && Binomial(t) then Vals(t) else multiset{}
  }

  ghost function Contents(ts: seq<Tree?>): multiset<Value>
    requires Slots(ts)
    decreases |ts|, 0
  {
    if ts == [] then multiset{}
    else Contents(ts[..|ts| - 1]) + ValsIf(ts[|ts| - 1])
  }

  /** The number whose binary digits are the occupied slots. */
  ghost function Weight(ts: seq<Tree?>): nat {
    if ts == [] then 0
    else
      var n := |ts| - 1;
      Weight(ts[..n]) + if ts[n] == null then 0 else Pow2(n)
  }

  lemma {:induction false} WeightBound(ts: seq<Tree?>)
    ensures Weight(ts) < Pow2(|ts|)
  {
    if ts != [] {
      WeightBound(ts[..|ts| - 1]);
    }
  }

  /** A tree of order `k` holds 2^k values. */
  lemma {:induction false} TreeSize(t: Tree)
    requires Binomial(t)
    ensures |Vals(t)| == Pow2(t.order)
    decreases t.order, 1
  {
    SlotsSize(t.subtrees);
    FullWeight(t.subtrees);
  }

  lemma {:induction false} SlotsSize(ts: seq<Tree?>)
    requires Slots(ts)
    ensures |Contents(ts)| == Weight(ts)
    decreases |ts|, 0
  {
    if ts != [] {
      var n := |ts| - 1;
      SlotsSize(ts[..n]);
      if ts[n] != null {
        TreeSize(ts[n]);
      }
    }
  }

  lemma {:induction false} FullWeight(ts: seq<Tree?>)
    requires forall i | 0 <= i < |ts| :: ts[i] != null
    ensures Weight(ts) + 1 == Pow2(|ts|)
  {
    if ts != [] {
      FullWeight(ts[..|ts| - 1]);
    }
  }

  // ---------------------------------------------------------------- heap order

  /** A heap's order of values: `compare_func` for a min heap, its negation for a max heap. */
  datatype Order = Order(cmp: Comparison, isMin: bool) {
    function Compare(a: Value, b: Value): int {
      if isMin then cmp(a, b) else -cmp(a, b)
    }

    predicate First(a: Value, b: Value) {
      if isMin then Leq(cmp, a, b) else Leq(cmp, b, a)
    }
  }

  lemma OrderSigns(ord: Order, a: Value, b: Value)
    requires Comparator(ord.cmp)
    ensures ord.Compare(a, b) > 0 <==> !ord.First(a, b)
    ensures ord.Compare(a, b) < 0 <==> !ord.First(b, a)
    ensures ord.First(a, b) || ord.First(b, a)
  {
    Signs(ord.cmp, a, b);
    Signs(ord.cmp, b, a);
  }

  lemma FirstTrans(ord: Order, a: Value, b: Value, c: Value)
    requires Comparator(ord.cmp) && ord.First(a, b) && ord.First(b, c)
    ensures ord.First(a, c)
  {
  }

  ghost predicate Heaped(ord: Order, t: Tree)
    requires Binomial(t)
    decreases t.order
  {
    forall i | 0 <= i < |t.subtrees| ::
      ord.First(t.value, t.subtrees[i].value) && Heaped(ord, t.subtrees[i])
  }

  ghost predicate HeapedSlots(ord: Order, ts: seq<Tree?>)
    requires Slots(ts)
  {
    forall i | 0 <= i < |ts| && ts[i] != null :: Heaped(ord, ts[i])
  }

  /** The root of a heap-ordered tree comes first. */
  lemma {:induction false} RootFirst(ord: Order, t: Tree, v: Value)
    requires Comparator(ord.cmp) && Binomial(t) && Heaped(ord, t) && v in Vals(t)
    ensures ord.First(t.value, v)
    decreases t.order
  {
    OrderSigns(ord, t.value, t.value);
    if v in Contents(t.subtrees) {
      var i := SlotOf(t.subtrees, v);
      RootFirst(ord, t.subtrees[i], v);
      FirstTrans(ord, t.value, t.subtrees[i].value, v);
    }
  }

  lemma {:induction false} SlotOf(ts: seq<Tree?>, v: Value) returns (i: nat)
    requires Slots(ts) && v in Contents(ts)
    ensures i < |ts| && ts[i] != null && v in Vals(ts[i])
  {
    var n := |ts| - 1;
    if v in Contents(ts[..n]) {
      i := SlotOf(ts[..n], v);
    } else {
      i := n;
    }
  }

  // ---------------------------------------------------------------- binomial_tree_merge

  /** The trees a merge builds on: both of the order of slot `k`, heap-ordered and alive. */
  ghost predicate Mergeable(ord: Order, t: Tree, k: nat) {
    t.order == k && Binomial(t) && Heaped(ord, t)
  }

  /** Linking the later root below the earlier one. */
  lemma Linked(ord: Order, first: Tree, last: Tree, n: Tree, k: nat)
    requires Mergeable(ord, first, k) && Mergeable(ord, last, k) && ord.First(first.value, last.value)
    requires n.value == first.value && n.order == k + 1 && n.subtrees == first.subtrees + [last]
    ensures Mergeable(ord, n, k + 1) && ValsIf(n) == ValsIf(first) + ValsIf(last)
  {
    assert forall i | 0 <= i < |first.subtrees| :: n.subtrees[i] == first.subtrees[i];
    var ts: seq<Tree?> := n.subtrees;
    assert ts[..k] == first.subtrees && ts[k] == last;
    assert Slots(ts) && Contents(ts) == Contents(first.subtrees) + Vals(last);
    Associate(multiset{n.value}, Contents(first.subtrees), Vals(last));
  }

  /**
   binomial_tree_merge. `ok1` and `ok2` say whether the two allocations succeed. On success the
   new tree is not referenced yet; on failure nothing has changed.
   */
  method MergeTrees(ord: Order, t1: Tree, t2: Tree, ok1: bool, ok2: bool, ghost k: nat,
                    ghost live: set<Tree>, ghost held: multiset<Tree>)
    returns (n: Tree?, ghost live': set<Tree>)
    requires Comparator(ord.cmp) && Mergeable(ord, t1, k) && Mergeable(ord, t2, k)
    requires Counted(live, held, null) && t1 in live && t2 in live
    modifies live
    ensures n != null <==> ok1 && ok2
    ensures n == null ==> live' == live && Counted(live, held, null)
    ensures n != null ==>
              fresh(n) && live' == live + {n} && n.refcount == 0 && Counted(live', held, n) &&
              Mergeable(ord, n, k + 1) && ValsIf(n) == ValsIf(t1) + ValsIf(t2)
  {
    hide Binomial, Heaped, Contents, Refs, ValsIf;
    var a, b := t1, t2;
    OrderSigns(ord, t1.value, t2.value);
    if ord.Compare(a.value, b.value) > 0 {
      a, b := b, a;
    }
    live' := live;
    if !ok1 || !ok2 {
      return null, live;
    }
    assert allocated(live);
    n := new Tree(a.value, a.order + 1, a.subtrees + [b], 0);
    RefAll(n.subtrees, live, held);
    Linked(ord, a, b, n, k);
    live' := live + {n};
    EnlistClosed(live, held, n);
    forall x | x in live
      ensures (held + Refs(n.subtrees))[x] + Pointers(live, x) == held[x] + Pointers(live + {n}, x)
    {
      Enlist(live, held, n, x);
    }
  }
}