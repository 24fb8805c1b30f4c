/**
 The binomial heap. Merging adds two arrays of trees slot by slot like binary numbers; any
 allocation may fail, and then everything done so far is taken back.
 */
module BinomialHeap {
  import opened Ordering
  import opened Powers
  import opened Wrappers
  import opened BinomialTrees

  /** The entry of slot `i`, null beyond the end of the array. */
  function Entry(ts: seq<Tree?>, i: nat): Tree? {
    if i < |ts| then ts[i] else null
  }

  /** The first `i` slots, or all of them. */
  function Upto(ts: seq<Tree?>, i: nat): seq<Tree?> {
    if i < |ts| then ts[..i] else ts
  }

  ghost predicate Fits(ord: Order, t: Tree?, k: nat, live: set<Tree>) {
    t != null ==> Mergeable(ord, t, k) && t in live
  }

  lemma UptoNext(ts: seq<Tree?>, i: nat)
    requires Slots(ts)
    ensures Slots(Upto(ts, i)) && Slots(Upto(ts, i + 1))
    ensures Entry(ts, i) != null ==> Binomial(Entry(ts, i))
    ensures Contents(Upto(ts, i + 1)) == Contents(Upto(ts, i)) + ValsIf(Entry(ts, i))
  {
    if i < |ts| {
      var next := Upto(ts, i + 1);
      assert next == ts[..i + 1] && next[..i] == ts[..i];
    } else {
      EmptySum(Contents(ts));
    }
  }

  function Present(t: Tree?): seq<Tree> {
    if t == null then [] else [t]
  }

  /** The trees to merge at one slot: the heap's, the other heap's, the carry. */
  function Gathered(a: Tree?, b: Tree?, carry: Tree?): seq<Tree> {
    Present(a) + Present(b) + Present(carry)
  }

  /** With an odd number of trees the last one stays in the slot. */
  function Stored(vals: seq<Tree>): Tree? {
    if |vals| % 2 != 0 then vals[|vals| - 1] else null
  }

  /** What is stored and what is merged make up exactly what was gathered. */
  lemma GatheredSum(a: Tree?, b: Tree?, carry: Tree?, f: Tree? -> multiset<Value>)
    requires f(null) == multiset{}
    ensures var vals := Gathered(a, b, carry);
            && |vals| <= 3
            && f(a) + f(b) + f(carry) ==
               f(Stored(vals)) + (if |vals| >= 2 then f(vals[0]) + f(vals[1]) else multiset{})
  {
    ThreeSums(f(a), f(b), f(carry));
    var vals := Gathered(a, b, carry);
    if a == null {
      assert vals == Present(b) + Present(carry);
    } else if b == null {
      assert vals == [a] + Present(carry);
    } else {
      assert vals == [a, b] + Present(carry);
    }
  }

  /** `next` holds the values of the first two trees, or there was nothing to merge. */
  ghost predicate Merged(vals: seq<Tree>, next: Tree?) {
    ValsIf(next) == if |vals| >= 2 then ValsIf(vals[0]) + ValsIf(vals[1]) else multiset{}
  }

  /** One slot of the sum: the values going in are the values stored and carried on. */
  ghost predicate Balanced(a: Tree?, b: Tree?, carry: Tree?, stored: Tree?, next: Tree?) {
    ValsIf(a) + ValsIf(b) + ValsIf(carry) == ValsIf(stored) + ValsIf(next)
  }

  lemma SlotBalanced(a: Tree?, b: Tree?, carry: Tree?, next: Tree?)
    requires Merged(Gathered(a, b, carry), next)
    ensures Balanced(a, b, carry, Stored(Gathered(a, b, carry)), next)
  {
    GatheredSum(a, b, carry, t => ValsIf(t));
  }

  lemma ThreeSums(x: multiset<Value>, y: multiset<Value>, z: multiset<Value>)
    ensures multiset{} + x == x && multiset{} + y == y && multiset{} + z == z
    ensures x + multiset{} == x && y + multiset{} == y && z + multiset{} == z
    ensures x + y + multiset{} == x + y && multiset{} + (x + y) == x + y
    ensures z + (x + y) == x + y + z && multiset{} + (x + z) == x + z && multiset{} + (y + z) == y + z
  {
  }

  lemma GatheredFit(ord: Order, a: Tree?, b: Tree?, carry: Tree?, k: nat, live: set<Tree>)
    requires Fits(ord, a, k, live) && Fits(ord, b, k, live) && Fits(ord, carry, k, live)
    ensures var vals := Gathered(a, b, carry);
            && Fits(ord, Stored(vals), k, live)
            && (|vals| >= 2 ==> Fits(ord, vals[0], k, live) && Fits(ord, vals[1], k, live))
  {
    var vals := Gathered(a, b, carry);
    assert forall i | 0 <= i < |vals| :: vals[i] == a || vals[i] == b || vals[i] == carry;
  }

  /** The first `i` slots of the sum with the carry hold what the first `i` slots of both arrays hold. */
  ghost predicate PartialSum(a: seq<Tree?>, b: seq<Tree?>, i: nat, sum: seq<Tree?>, carry: Tree?)
    requires Slots(a) && Slots(b) && Slots(sum)
  {
    Slots(Upto(a, i)) && Slots(Upto(b, i)) &&
    Contents(sum) + ValsIf(carry) == Contents(Upto(a, i)) + Contents(Upto(b, i))
  }

  lemma SlotAppend(ord: Order, sum: seq<Tree?>, stored: Tree?, live: set<Tree>)
    requires Slots(sum) && HeapedSlots(ord, sum) && Fits(ord, stored, |sum|, live)
    ensures Slots(sum + [stored]) && HeapedSlots(ord, sum + [stored])
    ensures Contents(sum + [stored]) == Contents(sum) + ValsIf(stored)
    ensures Refs(sum + [stored]) == Refs(sum) + One(stored)
  {
    assert (sum + [stored])[..|sum|] == sum;
    RefsConcat(sum, [stored]);
    EmptySum(One(stored));
    assert Refs([stored]) == One(stored);
  }

  lemma Shuffle(n: multiset<Value>, c: multiset<Value>, a: multiset<Value>, b: multiset<Value>,
                x: multiset<Value>, y: multiset<Value>, s: multiset<Value>, t: multiset<Value>)
    requires n + c == a + b && x + y + c == s + t
    ensures n + s + t == (a + x) + (b + y)
  {
    assert n + (s + t) == n + (x + y + c);
    assert n + (x + y + c) == (n + c) + (x + y);
    assert (a + b) + (x + y) == (a + x) + (b + y);
    assert n + s + t == n + (s + t);
  }

  lemma SumNext(ord: Order, a: seq<Tree?>, b: seq<Tree?>, i: nat, sum: seq<Tree?>, carry: Tree?,
                stored: Tree?, next: Tree?, live: set<Tree>)
    requires Slots(a) && Slots(b) && Slots(sum) && HeapedSlots(ord, sum) && |sum| == i
    requires PartialSum(a, b, i, sum, carry) && Fits(ord, stored, i, live)
    requires Balanced(Entry(a, i), Entry(b, i), carry, stored, next)
    ensures Slots(sum + [stored]) && PartialSum(a, b, i + 1, sum + [stored], next)
  {
    SlotAppend(ord, sum, stored, live);
    UptoNext(a, i);
    UptoNext(b, i);
    Shuffle(Contents(sum), ValsIf(carry), Contents(Upto(a, i)), Contents(Upto(b, i)),
            ValsIf(Entry(a, i)), ValsIf(Entry(b, i)), ValsIf(stored), ValsIf(next));
  }

  lemma SwapLast(base: multiset<Tree>, r: multiset<Tree>, c: multiset<Tree>, s: multiset<Tree>)
    ensures base + r + c + s == base + (r + s) + c
    ensures base + r + c + s == base + c + (r + s)
  {
  }

  /** Whoever is outside holds the trees of `other`, or holds their parent. */
  ghost predicate Anchored(other: seq<Tree?>, outside: multiset<Tree>) {
    forall i | 0 <= i < |other| && other[i] != null ::
      other[i] in outside || exists u :: u in outside && other[i] in u.subtrees
  }

  lemma AnchoredFits(ord: Order, mine: seq<Tree?>, other: seq<Tree?>, i: nat, all: set<Tree>,
                     base: multiset<Tree>, outside: multiset<Tree>, more: multiset<Tree>)
    requires Slots(mine) && Slots(other) && HeapedSlots(ord, mine) && HeapedSlots(ord, other)
    requires Anchored(other, outside) && base == Refs(mine) + outside && Closed(all, base + more)
    ensures Fits(ord, Entry(mine, i), i, all) && Fits(ord, Entry(other, i), i, all)
  {
    forall x | x in base ensures x in all {
      assert x in base + more;
    }
    if i < |mine| && mine[i] != null {
      RefsContain(mine, mine[i]);
      assert mine[i] in base;
    }
  }

  ghost predicate NullFrom(ts: seq<Tree?>, n: nat) {
    n <= |ts| && (forall i | n <= i < |ts| :: ts[i] == null) && (n > 0 ==> ts[n - 1] != null)
  }

  /** With one slot to spare nothing is carried out of the top. */
  lemma LastCarry(ord: Order, mine: seq<Tree?>, other: seq<Tree?>, sum: seq<Tree?>, carry: Tree?, live: set<Tree>)
    requires Slots(mine) && Slots(other) && Slots(sum) && |mine| < |sum| && |other| < |sum|
    requires PartialSum(mine, other, |sum|, sum, carry) && Fits(ord, carry, |sum|, live)
    ensures carry == null && Contents(sum) == Contents(mine) + Contents(other)
  {
    SlotsSize(mine);
    SlotsSize(other);
    WeightBound(mine);
    WeightBound(other);
    Pow2Less(|mine|, |sum|);
    Pow2Less(|other|, |sum|);
    assert Upto(mine, |sum|) == mine && Upto(other, |sum|) == other;
    assert |Contents(mine) + Contents(other)| < Pow2(|sum|);
    assert |Contents(sum) + ValsIf(carry)| >= |ValsIf(carry)|;
    if carry != null {
      TreeSize(carry);
    }
    EmptySum(Contents(sum));
  }

  /** Empty slots at the top can be left off. */
  lemma {:induction false} Trim(ord: Order, ts: seq<Tree?>, n: nat)
    requires Slots(ts) && HeapedSlots(ord, ts) && NullFrom(ts, n)
    ensures Slots(ts[..n]) && HeapedSlots(ord, ts[..n])
    ensures Contents(ts[..n]) == Contents(ts) && Refs(ts[..n]) == Refs(ts)
  {
    if n == |ts| {
      assert ts[..n] == ts;
    } else {
      var shorter := ts[..|ts| - 1];
      Trim(ord, shorter, n);
      assert shorter[..n] == ts[..n];
      DropNull(ts);
    }
  }

  lemma DropNull(ts: seq<Tree?>)
    requires Slots(ts) && ts != [] && ts[|ts| - 1] == null
    ensures var shorter := ts[..|ts| - 1];
            Slots(shorter) && Contents(ts) == Contents(shorter) && Refs(ts) == Refs(shorter)
  {
    var shorter := ts[..|ts| - 1];
    assert ts == shorter + [null];
    RefsConcat(shorter, [null]);
    assert Refs([null]) == multiset{};
    EmptySum(Refs(shorter));
    EmptySum(Contents(shorter));
  }

  lemma ThreeHeld(a: multiset<Tree>, b: multiset<Tree>, c: multiset<Tree>)
    ensures a + b + c + multiset{} == c + b + a
  {
  }

  /** One tree without subtrees is an array of trees with that one value. */
  lemma Single(ord: Order, tree: Tree)
    requires tree.order == 0 && tree.subtrees == []
    ensures Slots([tree]) && HeapedSlots(ord, [tree]) && Contents([tree]) == multiset{tree.value}
    ensures Anchored([tree], multiset{tree})
  {
    var ts: seq<Tree?> := [tree];
    assert Contents(ts[..0]) == multiset{} && Contents(tree.subtrees) == multiset{};
    EmptySum(multiset{tree.value});
    assert Vals(tree) == multiset{tree.value} && Contents(ts) == multiset{} + ValsIf(tree);
  }

  /** The root in slot `k` comes first of all roots, or `k` is negative and there is no root. */
  predicate Least(ord: Order, ts: seq<Tree?>, k: int) {
    if k < 0 then forall j | 0 <= j < |ts| :: ts[j] == null
    else
      k < |ts| && ts[k] != null && forall j | 0 <= j < |ts| && ts[j] != null :: ord.First(ts[k].value, ts[j].value)
  }

  lemma LeastNext(ord: Order, ts: seq<Tree?>, t: Tree?, k: int)
    requires Comparator(ord.cmp) && Least(ord, ts, k)
    ensures var better := t != null && (k < 0 || ord.Compare(t.value, ts[k].value) < 0);
            Least(ord, ts + [t], if better then |ts| else k)
  {
    if t != null {
      OrderSigns(ord, t.value, t.value);
      if k >= 0 {
        OrderSigns(ord, t.value, ts[k].value);
        forall j | 0 <= j < |ts| && ts[j] != null && ord.First(t.value, ts[k].value)
          ensures ord.First(t.value, ts[j].value)
        {
          FirstTrans(ord, t.value, ts[k].value, ts[j].value);
        }
      }
    }
  }

  /** The least root comes before every value in the heap, and there is one unless the heap is empty. */
  lemma LeastFirst(ord: Order, ts: seq<Tree?>, k: int)
    requires Comparator(ord.cmp) && Slots(ts) && HeapedSlots(ord, ts) && Least(ord, ts, k)
    ensures |Contents(ts)| > 0 ==> k >= 0
    ensures k >= 0 ==> forall v | v in Contents(ts) :: ord.First(ts[k].value, v)
  {
    forall v | v in Contents(ts) ensures k >= 0 && ord.First(ts[k].value, v) {
      var i := SlotOf(ts, v);
      RootFirst(ord, ts[i], v);
      FirstTrans(ord, ts[k].value, ts[i].value, v);
    }
    if k < 0 {
      Trim(ord, ts, 0);
    }
  }

  /** Emptying a slot takes out one reference ... */
  lemma EmptySlotRefs(ts: seq<Tree?>, k: nat)
    requires k < |ts| && ts[k] != null
    ensures Refs(ts) == Refs(ts[k := null]) + multiset{ts[k]}
  {
    var less := ts[k := null];
    RefsConcat(ts[..k], ts[k..]);
    RefsConcat(ts[..k], less[k..]);
    assert ts == ts[..k] + ts[k..] && less == ts[..k] + less[k..] && ts[k..][1..] == less[k..][1..];
    Associate(Refs(ts[..k]), multiset{ts[k]}, Refs(ts[k + 1..]));
    SwapSum(Refs(ts[..k]), multiset{ts[k]}, Refs(ts[k + 1..]));
    EmptySum(Refs(ts[k + 1..]));
  }

  /** ... and the values of one tree. */
  lemma {:induction false} EmptySlot(ts: seq<Tree?>, k: nat)
    requires Slots(ts) && k < |ts| && ts[k] != null
    ensures Slots(ts[k := null])
    ensures Contents(ts) == Contents(ts[k := null]) + Vals(ts[k])
  {
    hide Binomial, Vals;
    var n := |ts| - 1;
    var less, short := ts[k := null], ts[..n];
    assert Slots(short) && Slots(less) && Slots(less[..n]);
    assert Contents(less) == Contents(less[..n]) + ValsIf(less[n]);
    if k < n {
      EmptySlot(short, k);
      assert short[k := null] == less[..n];
      SwapSum(Contents(less[..n]), Vals(ts[k]), ValsIf(ts[n]));
    } else {
      assert short == less[..n];
      EmptySum(Contents(short));
    }
  }

  lemma SwapSum<T>(a: multiset<T>, b: multiset<T>, c: multiset<T>)
    ensures a + b + c == a + c + b
  {
  }

  /** A root's reference passes to whoever takes the tree out, and its subtrees can be merged in. */
  lemma Uproot(ord: Order, ts: seq<Tree?>, k: nat)
    requires Slots(ts) && HeapedSlots(ord, ts) && k < |ts| && ts[k] != null
    ensures var less, t := ts[k := null], ts[k];
            && Slots(less) && HeapedSlots(ord, less)
            && Slots(t.subtrees) && HeapedSlots(ord, t.subtrees) && Anchored(t.subtrees, multiset{t})
            && Contents(ts) == Contents(less) + Contents(t.subtrees) + multiset{t.value}
            && |Contents(ts)| == |Contents(less) + Contents(t.subtrees)| + 1
            && Refs(ts) + multiset{} == Refs(less) + multiset{t}
  {
    var less, t := ts[k := null], ts[k];
    EmptySlot(ts, k);
    EmptySlotRefs(ts, k);
    EmptySum(Refs(ts));
    assert Contents(less) + Vals(t) == Contents(less) + Contents(t.subtrees) + multiset{t.value};
    assert |Contents(ts)| == |Contents(less) + Contents(t.subtrees)| + |multiset{t.value}|;
    assert t in multiset{t};
  }

  class Heap {
    const ord: Order
    var numValues: int
    var roots: array<Tree?>
    var rootsLength: nat
    /** The trees this heap has allocated and not freed. */
    ghost var live: set<Tree>
    function Roots(): seq<Tree?>
      requires rootsLength <= roots.Length
      reads this`roots, this`rootsLength, roots
    {
      roots[..rootsLength]
    }

    /** The trees at one slot. */
    method Gather(a: Tree?, b: Tree?, carry: Tree?) returns (vals: seq<Tree>)
      ensures vals == Gathered(a, b, carry) && |vals| <= 3
    {
      vals := [];
      if a != null { vals := vals + [a]; }
      if b != null { vals := vals + [b]; }
      if carry != null { vals := vals + [carry]; }
    }

    /** One turn of the adder up to the carry: what to store in slot `k` and what to carry on. */
    method AddSlot(a: Tree?, b: Tree?, carry: Tree?, ghost k: nat, ghost all: set<Tree>, ghost held: multiset<Tree>)
      returns (ok: bool, stored: Tree?, next: Tree?, ghost all': set<Tree>, ghost refused: bool)
      requires Comparator(ord.cmp) && Counted(all, held, null)
      requires Fits(ord, a, k, all) && Fits(ord, b, k, all) && Fits(ord, carry, k, all)
      modifies all
      ensures Fits(ord, stored, k, all)
      ensures !ok ==> next == null
      ensures Counted(all', held + One(stored), next) && Fits(ord, next, k + 1, all')
      ensures next == null ==> all' == all
      ensures next != null ==> fresh(next) && next.refcount == 0 && all' == all + {next}
      ensures ok ==> Balanced(a, b, carry, stored, next)
      ensures ok <==> !refused
    {
      hide Counted, Mergeable, Merged, Balanced, Fits, Gathered;
      var vals := Gather(a, b, carry);
      GatheredFit(ord, a, b, carry, k, all);
      stored := Stored(vals);
      assert allocated(all);
      Ref(stored, all, held, null);
      ok, next, all', refused := CarryOn(vals, k, all, held + One(stored));
      if ok {
        SlotBalanced(a, b, carry, next);
      }
    }

    /** With two or three trees the first two are merged. */
    method CarryOn(vals: seq<Tree>, ghost k: nat, ghost all: set<Tree>, ghost held: multiset<Tree>)
      returns (ok: bool, next: Tree?, ghost all': set<Tree>, ghost refused: bool)
      requires Comparator(ord.cmp) && Counted(all, held, null) && |vals| <= 3
      requires |vals| >= 2 ==> Fits(ord, vals[0], k, all) && Fits(ord, vals[1], k, all)
      modifies all
      ensures Counted(all', held, next) && Fits(ord, next, k + 1, all')
      ensures next == null ==> all' == all
      ensures next != null ==> fresh(next) && next.refcount == 0 && all' == all + {next}
      ensures ok ==> Merged(vals, next)
      ensures !ok ==> next == null
      ensures ok <==> !refused
    {
      ok, next, all', refused := true, null, all, false;
      if (|vals| / 2) % 2 != 0 {
        var ok1 := Malloc();
        var ok2 := Malloc();
        next, all' := MergeTrees(ord, vals[0], vals[1], ok1, ok2, k, all, held);
        ok, refused := next != null, !ok1 || !ok2;
      }
    }

    /** The state of the adder before slot `i`: `sum` is filled, `carry` is held. */
    ghost predicate Adding(a: seq<Tree?>, b: seq<Tree?>, i: nat, sum: seq<Tree?>, carry: Tree?,
                           all: set<Tree>, base: multiset<Tree>)
      reads all
    {
      && Slots(a) && Slots(b) && Slots(sum) && HeapedSlots(ord, sum) && |sum| == i
      && Fits(ord, carry, i, all) && PartialSum(a, b, i, sum, carry)
      && Counted(all, base + Refs(sum) + One(carry), null)
    }

    /** The carry of slot `i` gives way to the next one. */
    method Advance(a: seq<Tree?>, b: seq<Tree?>, i: nat, sum: seq<Tree?>, carry: Tree?, stored: Tree?,
                   next: Tree?, ghost mid: set<Tree>, ghost base: multiset<Tree>)
      returns (ghost all: set<Tree>)
      requires Slots(a) && Slots(b) && Slots(sum + [stored]) && HeapedSlots(ord, sum + [stored]) && |sum| == i
      requires PartialSum(a, b, i + 1, sum + [stored], next) && Fits(ord, next, i + 1, mid)
      requires Counted(mid, base + Refs(sum + [stored]) + One(carry), next)
      requires next != null ==> next.refcount == 0
      modifies mid
      ensures all <= mid && Adding(a, b, i + 1, sum + [stored], next, all, base)
      ensures forall x | x in mid - all :: !x.live
    {
      ghost var held := base + Refs(sum + [stored]);
      assert allocated(mid);
      all := Unref(carry, mid, held, next);
      Ref(next, all, held, next);
    }

    /** binomial_heap_merge_undo, and the carry's reference with it. */
    method Undo(sum: seq<Tree?>, carry: Tree?, ghost mid: set<Tree>, ghost base: multiset<Tree>)
      returns (ghost all: set<Tree>)
      requires Counted(mid, base + One(carry) + Refs(sum), null)
      modifies mid
      ensures all <= mid && Counted(all, base, null)
      ensures forall x | x in mid - all :: !x.live
    {
      assert allocated(mid);
      all := DropAll(sum, mid, base + One(carry), null);
      all := Unref(carry, all, base, null);
    }

    /** One full turn of the adder. On a refused allocation all references taken are given back. */
    method AddStep(a: seq<Tree?>, b: seq<Tree?>, i: nat, sum: seq<Tree?>, carry: Tree?,
                   ghost all: set<Tree>, ghost base: multiset<Tree>)
      returns (ok: bool, stored: Tree?, next: Tree?, ghost all': set<Tree>, ghost refused: bool)
      requires Comparator(ord.cmp) && Adding(a, b, i, sum, carry, all, base)
      requires Fits(ord, Entry(a, i), i, all) && Fits(ord, Entry(b, i), i, all)
      modifies all
      ensures ok <==> !refused
      ensures ok ==> Adding(a, b, i + 1, sum + [stored], next, all', base)
      ensures !ok ==> Counted(all', base, null)
      ensures forall x | x in all' :: x in all || fresh(x)
      ensures forall x | x in all - all' :: !x.live
    {
      hide Counted, Fits, PartialSum, Slots, HeapedSlots, Contents, Refs, Balanced;
      ghost var held := base + Refs(sum) + One(carry);
      ghost var mid;
      assert allocated(all);
      ok, stored, next, mid, refused := AddSlot(Entry(a, i), Entry(b, i), carry, i, all, held);
      SlotAppend(ord, sum, stored, all);
      SwapLast(base, Refs(sum), One(carry), One(stored));
      if ok {
        SumNext(ord, a, b, i, sum, carry, stored, next, all);
        all' := Advance(a, b, i, sum, carry, stored, next, mid, base);
      } else {
        all' := Undo(sum + [stored], carry, mid, base);
      }
    }

    /** What every merge needs of the heap: its slots in order and every reference counted. */
    ghost predicate Owns(outside: multiset<Tree>)
      reads this`roots, this`rootsLength, this`live, roots, live
    {
      && rootsLength <= roots.Length && Slots(Roots()) && HeapedSlots(ord, Roots())
      && Counted(live, Refs(Roots()) + outside, null)
    }

    /** No slot is left over at the top. */
    ghost predicate Trimmed()
      reads this`roots, this`rootsLength, roots
    {
      rootsLength <= roots.Length && (rootsLength > 0 ==> roots[rootsLength - 1] != null)
    }

    /** The adder before slot `i`, with all it needs of the two arrays. */
    ghost predicate Sums(mine: seq<Tree?>, other: seq<Tree?>, i: nat, sum: seq<Tree?>, carry: Tree?,
                         all: set<Tree>, outside: multiset<Tree>)
      reads all
    {
      && Slots(other) && HeapedSlots(ord, other) && Slots(mine) && HeapedSlots(ord, mine)
      && Anchored(other, outside) && Adding(mine, other, i, sum, carry, all, Refs(mine) + outside)
    }

    /** `AddStep` with the arrays' own invariants. */
    method SumStep(mine: seq<Tree?>, other: seq<Tree?>, i: nat, sum: seq<Tree?>, carry: Tree?,
                   ghost all: set<Tree>, ghost outside: multiset<Tree>)
      returns (ok: bool, stored: Tree?, next: Tree?, ghost all': set<Tree>, ghost refused: bool)
      requires Comparator(ord.cmp) && Sums(mine, other, i, sum, carry, all, outside)
      modifies all
      ensures ok <==> !refused
      ensures ok ==> Sums(mine, other, i + 1, sum + [stored], next, all', outside)
      ensures !ok ==> Counted(all', Refs(mine) + outside, null)
      ensures forall x | x in all' :: x in all || fresh(x)
      ensures forall x | x in all - all' :: !x.live
    {
      assert allocated(all);
      ghost var base := Refs(mine) + outside;
      Associate(base, Refs(sum), One(carry));
      AnchoredFits(ord, mine, other, i, all, base, outside, Refs(sum) + One(carry));
      ok, stored, next, all', refused := AddStep(mine, other, i, sum, carry, all, base);
    }

    /** Fills slot `i` and keeps track of the last one in use. */
    static method Store(newRoots: array<Tree?>, i: nat, stored: Tree?, length: nat) returns (newLength: nat)
      requires i < newRoots.Length && NullFrom(newRoots[..i], length)
      modifies newRoots
      ensures newRoots[..i + 1] == old(newRoots[..i]) + [stored] && NullFrom(newRoots[..i + 1], newLength)
    {
      newRoots[i] := stored;
      newLength := if stored != null then i + 1 else length;
    }

    /** One turn of the loop: a slot of the sum is computed and stored. */
    method Turn(mine: seq<Tree?>, other: seq<Tree?>, i: nat, newRoots: array<Tree?>, length: nat, carry: Tree?,
                ghost sum: seq<Tree?>, ghost all: set<Tree>, ghost outside: multiset<Tree>)
      returns (ok: bool, newLength: nat, next: Tree?, ghost sum': seq<Tree?>, ghost all': set<Tree>, ghost refused: bool)
      requires Comparator(ord.cmp) && Sums(mine, other, i, sum, carry, all, outside)
      requires i < newRoots.Length && newRoots[..i] == sum && NullFrom(sum, length)
      modifies all, newRoots
      ensures ok <==> !refused
      ensures ok ==> newRoots[..i + 1] == sum' && NullFrom(sum', newLength)
      ensures ok ==> Sums(mine, other, i + 1, sum', next, all', outside)
      ensures !ok ==> Counted(all', Refs(mine) + outside, null)
      ensures forall x | x in all' :: x in all || fresh(x)
      ensures forall x | x in all - all' :: !x.live
    {
      hide Sums;
      var stored;
      newLength := length;
      assert allocated(all);
      ok, stored, next, all', refused := SumStep(mine, other, i, newRoots[..i], carry, all, outside);
      sum' := sum + [stored];
      if ok {

        newLength := Store(newRoots, i, stored, length);
      }
    }

    /** The ripple-carry loop over a fresh array. */
    method Sum(mine: seq<Tree?>, other: seq<Tree?>, max: nat, ghost all: set<Tree>, ghost outside: multiset<Tree>)
      returns (ok: bool, newRoots: array<Tree?>, newLength: nat, ghost carry: Tree?, ghost all': set<Tree>,
               ghost refused: bool)
      requires Comparator(ord.cmp) && Sums(mine, other, 0, [], null, all, outside)
      modifies all
      ensures ok <==> !refused
      ensures fresh(newRoots) && newRoots.Length == max
      ensures ok ==> Sums(mine, other, max, newRoots[..], carry, all', outside) && NullFrom(newRoots[..], newLength)
      ensures !ok ==> Counted(all', Refs(mine) + outside, null)
      ensures forall x | x in all' :: x in all || fresh(x)
      ensures forall x | x in all - all' :: !x.live
    {
      hide Sums;
      ok, refused, all', newLength, carry := true, false, all, 0, null;
      newRoots := new Tree?[max];
      var top: Tree? := null;
      var i := 0;
      ghost var sum: seq<Tree?> := [];
      while i < max
        invariant 0 <= i <= max && ok && !refused
        invariant newRoots[..i] == sum && NullFrom(sum, newLength)
        invariant Sums(mine, other, i, sum, top, all', outside)
        invariant forall x | x in all' :: x in all || fresh(x)
        invariant forall x | x in all - all' :: !x.live
      {
        ok, newLength, top, sum, all', refused :=
          Turn(mine, other, i, newRoots, newLength, top, sum, all', outside);
        if !ok {
          return;
        }
        i := i + 1;
      }
      carry := top;
      assert newRoots[..max] == newRoots[..];
    }

    /** The adder starts with an empty sum and no carry. */
    lemma StartSum(other: seq<Tree?>, outside: multiset<Tree>)
      requires Owns(outside) && Slots(other) && HeapedSlots(ord, other) && Anchored(other, outside)
      ensures Sums(Roots(), other, 0, [], null, live, outside)
    {
      var base := Refs(Roots()) + outside;
      EmptySum(base);
      EmptySum<Value>(multiset{});
      assert Upto(Roots(), 0) == [] && Upto(other, 0) == [];
    }

    /** What the adder leaves in the new array, up to its last used slot. */
    lemma FinishSum(mine: seq<Tree?>, other: seq<Tree?>, sum: seq<Tree?>, n: nat, carry: Tree?,
                    all: set<Tree>, outside: multiset<Tree>)
      requires Sums(mine, other, |sum|, sum, carry, all, outside) && NullFrom(sum, n)
      requires |mine| < |sum| && |other| < |sum|
      ensures Slots(mine) && Slots(other) && Slots(sum[..n]) && HeapedSlots(ord, sum[..n])
      ensures Contents(sum[..n]) == Contents(mine) + Contents(other)
      ensures Counted(all, Refs(sum[..n]) + outside + Refs(mine), null)
    {
      LastCarry(ord, mine, other, sum, carry, all);
      Trim(ord, sum, n);
      ThreeHeld(Refs(mine), outside, Refs(sum));
    }

    /** The old array gives up its references and the new one takes its place. */
    method Install(other: seq<Tree?>, newRoots: array<Tree?>, newLength: nat, ghost carry: Tree?,
                   ghost all: set<Tree>, ghost outside: multiset<Tree>)
      requires rootsLength <= roots.Length && NullFrom(newRoots[..], newLength)
      requires newRoots.Length > rootsLength && newRoots.Length > |other|
      requires Sums(Roots(), other, newRoots.Length, newRoots[..], carry, all, outside)
      modifies this`roots, this`rootsLength, this`live, all
      ensures roots == newRoots && Owns(outside) && Trimmed() && live <= all
      ensures Slots(old(Roots())) && Slots(other) && Contents(Roots()) == Contents(old(Roots())) + Contents(other)
      ensures forall x | x in all - live :: !x.live
    {
      hide Sums, Counted, Slots, HeapedSlots, Contents;
      FinishSum(Roots(), other, newRoots[..], newLength, carry, all, outside);
      assert newRoots[..newLength] == newRoots[..][..newLength];
      assert allocated(all);
      live := DropAll(Roots(), all, Refs(newRoots[..newLength]) + outside, null);
      roots, rootsLength := newRoots, newLength;
    }

    /** Adds the trees of `other` to this heap, or leaves everything as it was. */
    method Merge(other: seq<Tree?>, ghost outside: multiset<Tree>) returns (ok: bool, ghost refused: bool)
      requires Comparator(ord.cmp) && Owns(outside)
      requires Slots(other) && HeapedSlots(ord, other) && Anchored(other, outside)
      modifies this`roots, this`rootsLength, this`live, live
      ensures ok <==> !refused
      ensures Owns(outside)
      ensures ok ==> fresh(roots) && Trimmed() && Contents(Roots()) == old(Contents(Roots())) + Contents(other)
      ensures !ok ==> live == old(live) && roots == old(roots) && rootsLength == old(rootsLength)
      ensures forall x | x in live :: x in old(live) || fresh(x)
      ensures forall x | x in old(live) - live :: !x.live
    {
      hide Sums, Counted, Slots, HeapedSlots, Contents, Anchored;
      ok := Malloc();
      refused := !ok;
      if ok {
        var max := (if rootsLength > |other| then rootsLength else |other|) + 1;
        ghost var carry;
        ghost var all;
        var newRoots, newLength;
        StartSum(other, outside);
        CountedGrounded(live, Refs(Roots()) + outside);
        assert allocated(live);
        ok, newRoots, newLength, carry, all, refused := Sum(Roots(), other, max, live, outside);
        assert allocated(all);
        if ok {
          Install(other, newRoots, newLength, carry, all, outside);
        } else {
          CountedGrounded(all, Refs(Roots()) + outside);
          LiveUnique(live, all, Refs(Roots()) + outside);
        }
      }
    }

    /** Every value is counted, and all references but those in `outside` are the heap's own. */
    ghost predicate Settled(outside: multiset<Tree>)
      reads this, roots, live
    {
      Owns(outside) && Trimmed() && numValues == |Contents(Roots())|
    }

    /** Between calls nobody outside holds a tree. */
    ghost predicate Valid()
      reads this, roots, live
    {
      Settled(multiset{})
    }

    /** The occupied slots are the binary digits of `num_values`, and there are no further slots. */
    lemma SlotsAreDigits(i: nat)
      requires Valid()
      ensures i < rootsLength ==> (roots[i] != null <==> Bit(numValues, i))
      ensures i >= rootsLength ==> numValues < Pow2(i)
    {
      SlotsSize(Roots());
      WeightBound(Roots());
      if i < rootsLength {
        Digit(Roots(), i);
      } else if rootsLength < i {
        Pow2Less(rootsLength, i);
      }
    }

    constructor (ord: Order)
      ensures this.ord == ord && Valid() && live == {} && Contents(Roots()) == multiset{}
    {
      this.ord, numValues, rootsLength, live := ord, 0, 0, {};
      roots := new Tree?[0];
    }

    /** Gives up a reference held outside the heap. */
    method Release(tree: Tree)
      requires Owns(multiset{tree})
      modifies this`live, live
      ensures Owns(multiset{}) && live <= old(live) && Roots() == old(Roots()) && Trimmed() == old(Trimmed())
      ensures forall x | x in old(live) - live :: !x.live
    {
      hide Counted, Slots, HeapedSlots;
      assert allocated(live);
      live := Unref(tree, live, Refs(Roots()), null);
      EmptySum(Refs(Roots()));
    }

    /** Merges a heap of just one value into this one. */
    method MergeSingle(tree: Tree) returns (ok: bool, ghost refused: bool)
      requires Comparator(ord.cmp) && Settled(multiset{tree}) && tree.order == 0 && tree.subtrees == []
      modifies this, live
      ensures Settled(multiset{tree}) && (ok <==> !refused)
      ensures ok ==> Contents(Roots()) == old(Contents(Roots())) + multiset{tree.value}
      ensures !ok ==> live == old(live) && roots == old(roots) && rootsLength == old(rootsLength)
      ensures forall x | x in live :: x in old(live) || fresh(x)
      ensures forall x | x in old(live) - live :: !x.live
    {
      hide Counted, Slots, HeapedSlots, Contents, Anchored, Refs;
      Single(ord, tree);
      ok, refused := Merge([tree], multiset{tree});
      if ok {
        numValues := numValues + 1;
      }
    }

    /** binomial_heap_insert. `refused` says whether some allocation failed. */
    method Insert(value: Value) returns (ok: bool, ghost refused: bool)
      requires Comparator(ord.cmp) && Valid()
      modifies this, live
      ensures Valid() && (ok <==> !refused)
      ensures ok ==> Contents(Roots()) == old(Contents(Roots())) + multiset{value}
      ensures !ok ==> live == old(live) && roots == old(roots) && rootsLength == old(rootsLength)
      ensures forall x | x in live :: x in old(live) || fresh(x)
      ensures forall x | x in old(live) - live :: !x.live
    {
      hide Counted, Slots, HeapedSlots, Contents, Closed, Refs, Grounded, Layered;
      ok := Malloc();
      refused := !ok;
      if ok {
        CountedGrounded(live, Refs(Roots()) + multiset{});
        ghost var before := live;
        assert allocated(live);
        var tree := new Tree(value, 0, [], 1);
        Newborn(tree, Refs(Roots()));
        live := live + {tree};
        ok, refused := MergeSingle(tree);
        assert allocated(live);
        Release(tree);
        if !ok {
          CountedGrounded(live, Refs(Roots()) + multiset{});
          LiveUnique(live, before, Refs(Roots()) + multiset{});
        }
      }
    }

    /** A tree just made and held once joins the others. */
    lemma Newborn(tree: Tree, held: multiset<Tree>)
      requires Counted(live, held + multiset{}, null) && tree !in live
      requires tree.subtrees == [] && tree.order == 0 && tree.refcount == 1 && tree.live
      ensures Counted(live + {tree}, held + multiset{tree}, null)
    {
      EmptySum(held);
      assert Refs(tree.subtrees) == multiset{};
      EnlistClosed(live, held, tree);
      forall x | x in live ensures Pointers(live + {tree}, x) == Pointers(live, x) && (held + multiset{tree})[x] == held[x] {
        Enlist(live, held, tree, x);
      }
    }

    /** The first loop of binomial_heap_pop: the slot whose root comes first, -1 for no root. */
    method FindLeast() returns (least: int)
      requires Comparator(ord.cmp) && rootsLength <= roots.Length
      ensures Least(ord, Roots(), least)
    {
      least := -1;
      var i := 0;
      while i < rootsLength
        invariant 0 <= i <= rootsLength && Least(ord, roots[..i], least)
      {
        LeastNext(ord, roots[..i], roots[i], least);
        assert roots[..i + 1] == roots[..i] + [roots[i]];
        if roots[i] != null {
          if least < 0 || ord.Compare(roots[i].value, roots[least].value) < 0 {
            least := i;
          }
        }
        i := i + 1;
      }
    }

    lemma OwnsSlots(outside: multiset<Tree>)
      requires Owns(outside)
      ensures rootsLength <= roots.Length && Slots(Roots())
    {
    }

    /** Puts the subtrees of a tree just taken out back in, and drops the tree itself. */
    method Regroup(tree: Tree) returns (ok: bool, ghost refused: bool)
      requires Comparator(ord.cmp) && Owns(multiset{tree})
      requires Slots(tree.subtrees) && HeapedSlots(ord, tree.subtrees) && Anchored(tree.subtrees, multiset{tree})
      requires numValues == |Contents(Roots()) + Contents(tree.subtrees)| + 1
      modifies this, live
      ensures ok <==> !refused
      ensures ok ==> Valid()
      ensures ok ==> Contents(Roots()) == old(Contents(Roots())) + Contents(tree.subtrees)
      ensures !ok ==> Owns(multiset{tree}) && numValues == old(numValues)
      ensures !ok ==> live == old(live) && roots == old(roots) && rootsLength == old(rootsLength)
      ensures forall x | x in live :: x in old(live) || fresh(x)
      ensures forall x | x in old(live) - live :: !x.live
    {
      hide Counted, Slots, HeapedSlots, Contents, Anchored, Owns, Trimmed, Refs;
      OwnsSlots(multiset{tree});
      ok, refused := Merge(tree.subtrees, multiset{tree});
      if ok {
        Release(tree);
        numValues := numValues - 1;
      }
    }

    /** Puts a tree back into its slot. */
    method Restore(tree: Tree, least: nat, ghost before: seq<Tree?>)
      requires Owns(multiset{tree}) && least < rootsLength && Slots(before) && HeapedSlots(ord, before)
      requires |before| == rootsLength && before[least] == tree && Roots() == before[least := null]
      requires Refs(before) + multiset{} == Refs(Roots()) + multiset{tree}
      modifies roots
      ensures Owns(multiset{}) && Roots() == before && roots[rootsLength - 1] == before[rootsLength - 1]
    {
      hide Counted, Slots, HeapedSlots, Refs;
      roots[least] := tree;
      assert Roots() == before;
    }

    /** Takes the root out of slot `least`, or puts everything back if memory runs out. */
    method TakeOut(least: nat) returns (ok: bool, value: Value, ghost refused: bool)
      requires Comparator(ord.cmp) && Valid() && least < rootsLength && roots[least] != null
      modifies this, roots, live
      ensures Valid() && (ok <==> !refused) && value == old(roots[least].value)
      ensures ok ==> Contents(Roots()) + multiset{value} == old(Contents(Roots()))
      ensures !ok ==> live == old(live) && Roots() == old(Roots()) && numValues == old(numValues)
      ensures forall x | x in live :: x in old(live) || fresh(x)
      ensures forall x | x in old(live) - live :: !x.live
    {
      hide Counted, Slots, HeapedSlots, Contents, Anchored, Binomial, Heaped, Layered, Vals, Refs;
      ghost var before := Roots();
      var tree := roots[least];
      Uproot(ord, before, least);
      roots[least] := null;
      assert Roots() == before[least := null];
      value := tree.value;
      ok, refused := Regroup(tree);
      if !ok {
        Restore(tree, least, before);
      }
    }

    /** binomial_heap_pop. None stands for the null value: the heap is empty or memory ran out. */
    method Pop() returns (r: Option<Value>, ghost refused: bool)
      requires Comparator(ord.cmp) && Valid()
      modifies this, roots, live
      ensures Valid()
      ensures r.None? <==> refused || old(numValues) == 0
      ensures r.Some? ==> Contents(Roots()) + multiset{r.value} == old(Contents(Roots()))
      ensures r.Some? ==> forall v | v in old(Contents(Roots())) :: ord.First(r.value, v)
      ensures r.Some? ==> forall v | v in old(Contents(Roots())) ::
                if ord.isMin then ord.cmp(r.value, v) <= 0 else ord.cmp(v, r.value) <= 0
      ensures r.None? ==> live == old(live) && Roots() == old(Roots()) && numValues == old(numValues)
      ensures forall x | x in live :: x in old(live) || fresh(x)
      ensures forall x | x in old(live) - live :: !x.live
    {
      hide Counted, Slots, HeapedSlots, Contents;
      r, refused := None, false;
      if numValues != 0 {
        var least := FindLeast();
        LeastFirst(ord, Roots(), least);
        var ok, value;
        ok, value, refused := TakeOut(least);
        if ok {
          r := Some(value);
        }
      }
    }

    /** binomial_heap_free: no tree is left in memory. */
    method Destroy()
      requires Valid()
      modifies this`live, live
      ensures live == {} && forall x | x in old(live) :: !x.live
    {
      hide Slots, HeapedSlots;
      assert allocated(live);
      EmptySum(Refs(Roots()));
      live := DropAll(Roots(), live, multiset{}, null);
      CountedGrounded(live, multiset{});
      LiveUnique(live, {}, multiset{});
    }
  }

  // ---------------------------------------------------------------- the binary number

  predicate Bit(w: nat, i: nat) {
    w / Pow2(i) % 2 == 1
  }

  /** Slot `i` is occupied exactly if bit `i` of the number of values is set. */
  lemma {:induction false} Digit(ts: seq<Tree?>, i: nat)
    requires i < |ts|
    ensures ts[i] != null <==> Bit(Weight(ts), i)
  {
    hide Bit;
    var n := |ts| - 1;
    WeightBound(ts[..n]);
    BitTop(Weight(ts[..n]), n);
    if i < n {
      Digit(ts[..n], i);
      BitBelow(Weight(ts[..n]), i, n);
    }
  }

  lemma BitTop(w: nat, n: nat)
    requires w < Pow2(n)
    ensures !Bit(w, n) && Bit(w + Pow2(n), n)
  {
    QuotientIs(w, Pow2(n), 0, w);
    QuotientIs(w + Pow2(n), Pow2(n), 1, w);
  }

  lemma BitBelow(w: nat, i: nat, n: nat)
    requires i < n
    ensures Bit(w + Pow2(n), i) == Bit(w, i)
  {
    var k := Pow2(n - 1 - i);
    Pow2Sum(n - i, i);
    EvenMultiple(w, k, Pow2(i));
  }

  lemma EvenMultiple(w: nat, k: nat, p: nat)
    requires p > 0
    ensures (w + 2 * k * p) / p % 2 == w / p % 2
  {
    var q, r := w / p, w % p;
    assert w == q * p + r;
    Distribute(q, 2 * k, p);
    QuotientIs(w + 2 * k * p, p, q + 2 * k, r);
  }
}
