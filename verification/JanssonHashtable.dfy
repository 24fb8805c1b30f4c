/** jansson's hash table: a map that remembers the order in which its keys were first set. */
module JanssonHashtable {
  import opened Wrappers
  import opened Powers
  import opened HashtableLists
  import opened HashtableRuns

  // ---------------------------------------------------------------- the map it stands for

  datatype Pair = Pair(key: Key, value: Value)

  function SetPair(ps: seq<Pair>, key: Key, value: Value): seq<Pair> {
    if ps == [] then [Pair(key, value)]
    else if ps[0].key == key then [Pair(key, value)] + ps[1..]
    else [ps[0]] + SetPair(ps[1..], key, value)
  }

  function GetPair(ps: seq<Pair>, key: Key): Option<Value> {
    if ps == [] then None
    else if ps[0].key == key then Some(ps[0].value)
    else GetPair(ps[1..], key)
  }

  function DelPair(ps: seq<Pair>, key: Key): seq<Pair> {
    if ps == [] then []
    else if ps[0].key == key then ps[1..]
    else [ps[0]] + DelPair(ps[1..], key)
  }

  /** The keys of the map, each once. */
  predicate Unique(ps: seq<Pair>) {
    forall i, j | 0 <= i < j < |ps| :: ps[i].key != ps[j].key
  }

  lemma {:induction false} SetThenGet(ps: seq<Pair>, key: Key, value: Value, other: Key)
    ensures GetPair(SetPair(ps, key, value), other) == if other == key then Some(value) else GetPair(ps, other)
  {
    if ps != [] {
      SetThenGet(ps[1..], key, value, other);
    }
  }

  /** A new key comes last; a known key keeps its place. */
  predicate WasSet(before: seq<Pair>, after: seq<Pair>, key: Key, value: Value) {
    && ((forall i | 0 <= i < |before| :: before[i].key != key) ==> after == before + [Pair(key, value)])
    && (forall i | 0 <= i < |before| && before[i].key == key :: after == before[i := Pair(key, value)])
  }

  lemma SetSpelled(ps: seq<Pair>, key: Key, value: Value)
    requires Unique(ps)
    ensures WasSet(ps, SetPair(ps, key, value), key, value)
  {
    hide SetPair;
    if forall i | 0 <= i < |ps| :: ps[i].key != key {
      NewLast(ps, key, value);
    }
    forall i | 0 <= i < |ps| && ps[i].key == key ensures SetPair(ps, key, value) == ps[i := Pair(key, value)] {
      PairAt(ps, i, value);
    }
  }

  lemma {:induction false} NewLast(ps: seq<Pair>, key: Key, value: Value)
    requires forall i | 0 <= i < |ps| :: ps[i].key != key
    ensures SetPair(ps, key, value) == ps + [Pair(key, value)]
  {
    if ps != [] {
      NewLast(ps[1..], key, value);
    }
  }

  /** The key's pair goes, and nothing else changes. */
  lemma DelSpelled(ps: seq<Pair>, key: Key)
    requires Unique(ps)
    ensures GetPair(ps, key).None? ==> DelPair(ps, key) == ps
    ensures forall i | 0 <= i < |ps| && ps[i].key == key ::
              GetPair(ps, key).Some? && DelPair(ps, key) == ps[..i] + ps[i + 1..]
  {
    hide DelPair;
    if GetPair(ps, key).None? {
      NotThere(ps, key);
    }
    forall i | 0 <= i < |ps| && ps[i].key == key
      ensures GetPair(ps, key).Some? && DelPair(ps, key) == ps[..i] + ps[i + 1..]
    {
      PairAt(ps, i, 0);
    }
  }

  lemma {:induction false} NotThere(ps: seq<Pair>, key: Key)
    requires GetPair(ps, key).None?
    ensures DelPair(ps, key) == ps
  {
    if ps != [] {
      NotThere(ps[1..], key);
    }
  }

  lemma {:induction false} DelThenGet(ps: seq<Pair>, key: Key, other: Key)
    requires Unique(ps)
    ensures GetPair(DelPair(ps, key), other) == if other == key then None else GetPair(ps, other)
  {
    if ps != [] {
      DelThenGet(ps[1..], key, other);
      if ps[0].key == key {
        NoKey(ps[1..], key);
      }
    }
  }

  lemma {:induction false} NoKey(ps: seq<Pair>, key: Key)
    requires forall i | 0 <= i < |ps| :: ps[i].key != key
    ensures GetPair(ps, key) == None
  {
    if ps != [] {
      NoKey(ps[1..], key);
    }
  }

  function PairOf(n: Node): Pair
    reads n`value
  {
    Pair(n.key, n.value)
  }

  ghost function Pairs(nodes: seq<Node>): (ps: seq<Pair>)
    reads Of(nodes)`value
    ensures |ps| == |nodes| && forall i | 0 <= i < |nodes| :: ps[i] == PairOf(nodes[i])
  {
    if nodes == [] then [] else [PairOf(nodes[0])] + Pairs(nodes[1..])
  }

  // ---------------------------------------------------------------- hash masks

  function BitAnd(a: nat, b: nat): nat {
    if a == 0 || b == 0 then 0
    else 2 * BitAnd(a / 2, b / 2) + if a % 2 == 1 && b % 2 == 1 then 1 else 0
  }

  /** `hashmask(n)` */
  function HashMask(n: nat): nat {
    Pow2(n) - 1
  }

  /** The `%` of the rehash and the `&` of the lookups pick the same bucket. */
  lemma {:induction false} MaskIsModulo(h: nat, n: nat)
    ensures BitAnd(h, HashMask(n)) == h % Pow2(n)
  {
    hide HashMask, Pow2, BitAnd;
    if n == 0 || h == 0 {
      NothingMasked(h, n);
    } else {
      MaskIsModulo(h / 2, n - 1);
      MaskHalves(n);
      LastBit(h, HashMask(n));
      Halves(h, Pow2(n - 1));
    }
  }

  lemma NothingMasked(h: nat, n: nat)
    requires n == 0 || h == 0
    ensures BitAnd(h, HashMask(n)) == 0 == h % Pow2(n)
  {
    hide Pow2;
    if n == 0 {
      assert Pow2(0) == 1 by { NoShift(); }
    } else {
      ZeroModulo(Pow2(n));
    }
  }

  lemma NoShift()
    ensures Pow2(0) == 1
  {
  }

  lemma ZeroModulo(p: nat)
    requires p > 0
    ensures 0 % p == 0
  {
  }

  /** A mask with its last bit set keeps the last bit. */
  lemma LastBit(h: nat, mask: nat)
    requires h > 0 && mask % 2 == 1
    ensures BitAnd(h, mask) == 2 * BitAnd(h / 2, mask / 2) + h % 2
  {
    if mask == 1 {
      assert BitAnd(h / 2, 0) == 0;
    }
  }

  lemma MaskHalves(n: nat)
    requires n > 0
    ensures HashMask(n) / 2 == HashMask(n - 1) && HashMask(n) % 2 == 1 && Pow2(n) == 2 * Pow2(n - 1)
  {
  }

  lemma Halves(h: nat, p: nat)
    requires p > 0
    ensures h % (2 * p) == 2 * (h / 2 % p) + h % 2
  {
    var q, r := h / 2 / p, h / 2 % p;
    DivMod(h / 2, p);
    Distribute(q, q, p);
    QuotientIs(h, 2 * p, q, 2 * r + h % 2);
  }

  /** All keys differ and every pair carries its key's hash. */
  ghost predicate Keyed(nodes: seq<Node>, hashOf: Key -> nat) {
    && (forall i | 0 <= i < |nodes| :: nodes[i].hash == hashOf(nodes[i].key))
    && (forall i, j | 0 <= i < j < |nodes| :: nodes[i].key != nodes[j].key)
  }

  /** Both lists hold the same pairs. */
  ghost predicate SamePairs(ring: seq<Node>, list: seq<Node>) {
    multiset(ring) == multiset(list)
  }

  lemma SameAgain(a: seq<Node>, b: seq<Node>, list: seq<Node>)
    requires SamePairs(a, b) && SamePairs(b, list)
    ensures SamePairs(a, list)
  {
  }

  class Table {
    /** The hash function with its seed. */
    const hashOf: Key -> nat
    const head: Node
    var size: nat
    var order: nat
    var buckets: array<Bucket>
    /** The pairs in the buckets' list, where each bucket's lie, and the pairs as first set. */
    ghost var ring: seq<Node>
    ghost var spans: seq<Span>
    ghost var list: seq<Node>

    ghost predicate Ring()
      reads this`order, this`buckets, this`ring, this`spans, buckets, head`next, head`prev, Of(ring)`next, Of(ring)`prev
    {
      && buckets.Length == Pow2(order) && Linked(ring, head) && Runs(ring, spans, buckets[..], head)
    }

    ghost predicate Valid()
      reads this, buckets, head, ring, list
    {
      && Ring() && Ordered(list, head) && SamePairs(ring, list) && Keyed(list, hashOf)
      && size == |list| && size <= Pow2(order)
    }

    ghost function Contents(): seq<Pair>
      reads this`list, Of(list)`value
    {
      Pairs(list)
    }

    /** hashtable_init */
    constructor (hashOf: Key -> nat)
      ensures Valid() && Contents() == [] && this.hashOf == hashOf
      ensures fresh(head) && fresh(buckets)
    {
      this.hashOf := hashOf;
      var h := new Node(0, [], 0);
      head := h;
      size, order, ring, list := 0, 3, [], [];
      buckets := new Bucket[8](i => Bucket(h, h));
      spans := seq(8, i => Span(0, 0));
      new;
      EmptyTable(buckets[..], spans, head);
    }

    lemma RingFacts()
      requires Ring()
      ensures |spans| == buckets.Length == Pow2(order) && Distinct(ring, head) && head !in ring
    {
    }

    /** What the bucket says about where a new pair goes. */
    lemma BucketRun(b: nat, p: nat)
      requires Ring() && b < buckets.Length && p == InsertAt(spans[b], |ring|)
      ensures p <= |ring| && |Circle(ring, head)| == |ring| + 2
      ensures Circle(ring, head)[p + 1] == if BucketIsEmpty(buckets[b], head) then head else buckets[b].first
    {
      EmptyBucket(ring, spans[b], b, buckets[b], buckets.Length, head);
    }

    /** insert_to_bucket */
    method InsertToBucket(b: nat, node: Node)
      requires Ring() && node !in ring && node != head && b == Index(node, Pow2(order))
      modifies this`ring, this`spans, buckets, {head, node}`prev, {head, node}`next, Of(ring)`prev, Of(ring)`next
      ensures Ring() && exists p | 0 <= p <= |old(ring)| :: ring == Inserted(old(ring), p, node)
      ensures old(Ordered(list, head)) ==> Ordered(list, head)
      ensures Contents() == old(Contents())
    {
      hide Linked, Runs, RunAt, Inserted, InsertedSpans, Ordered, Pairs;
      assert allocated(Of(list));
      RingFacts();
      ghost var p := InsertAt(spans[b], |ring|);
      RunsInserted(ring, spans, buckets[..], head, node);
      BucketRun(b, p);
      Neighbours(ring, head, p);
      var bucket := buckets[b];
      if BucketIsEmpty(bucket, head) {
        ListInsert(head, node, ring, head, p);
        buckets[b] := Bucket(node, node);
      } else {
        ListInsert(bucket.first, node, ring, head, p);
        buckets[b] := Bucket(node, bucket.last);
      }
      spans := InsertedSpans(spans, b, |ring|);
      ring := Inserted(ring, p, node);
    }

    /** The nodes of `old` from `k` on still hang together, and those before are in the new list. */
    ghost predicate Moving(old': seq<Node>, k: nat)
      reads this`ring, head, Of(old')`next
    {
      && k <= |old'| && head !in old'
      && (forall j | k <= j < |old'| :: old'[j].next == (old' + [head])[j + 1] && old'[j] !in ring)
      && multiset(ring) == multiset(old'[..k])
    }

    /** One turn of the rehash loop. */
    method MoveOne(node: Node, ghost old': seq<Node>, ghost k: nat) returns (next: Node)
      requires Ring() && Moving(old', k) && k < |old'| && node == old'[k] && Distinct(old', head)
      modifies this`ring, this`spans, buckets
      modifies head`prev, head`next, Of(old')`prev, Of(old')`next
      ensures Ring() && Moving(old', k + 1) && next == (old' + [head])[k + 1]
      ensures old(Ordered(list, head)) ==> Ordered(list, head)
      ensures Contents() == old(Contents())
    {
      hide Linked, Runs, Inserted, Ordered, Pairs;
      assert allocated(Of(list));
      next := node.next;
      var index := node.hash % Pow2(order);
      ghost var before := ring;
      MovedSubset(ring, old', k);
      InsertToBucket(index, node);
      MovedOne(old', k, before, ring, node);
    }

    /** Fresh buckets, all empty, and an empty list. */
    method ResetBuckets(newOrder: nat)
      modifies this`order, this`buckets, this`ring, this`spans, head`prev, head`next
      ensures Ring() && ring == [] && order == newOrder && fresh(buckets)
    {
      var h := head;
      buckets := new Bucket[Pow2(newOrder)](i => Bucket(h, h));
      order := newOrder;
      head.next := head;
      head.prev := head;
      ring, spans := [], seq(Pow2(newOrder), i => Span(0, 0));
      EmptyTable(buckets[..], spans, head);
      EmptyList(head);
    }

    /** The loop of the rehash: the pairs are moved one by one while the old list is walked. */
    method MoveAll(first: Node, ghost old': seq<Node>)
      requires Ring() && Moving(old', 0) && first == (old' + [head])[0] && Distinct(old', head)
      modifies this`ring, this`spans, buckets
      modifies head`prev, head`next, Of(old')`prev, Of(old')`next
      ensures Ring() && SamePairs(ring, old')
      ensures old(Ordered(list, head)) ==> Ordered(list, head)
      ensures Contents() == old(Contents())
    {
      hide Linked, Runs, Ordered, Distinct, Pairs;
      assert allocated(Of(list));
      var node := first;
      ghost var k := 0;
      while node != head
        invariant Ring() && Moving(old', k)
        invariant node == (old' + [head])[k] && Contents() == old(Contents())
        invariant old(Ordered(list, head)) ==> Ordered(list, head)
        decreases |old'| - k
      {
        node := MoveOne(node, old', k);
        k := k + 1;
      }
      assert old'[..k] == old';
    }

    /** The rehash up to its loop: the old list has lost its head. */
    method BeginMoving() returns (node: Node)
      requires Valid()
      modifies this`order, this`buckets, this`ring, this`spans, head`prev, head`next
      ensures Ring() && order == old(order) + 1 && fresh(buckets) && Distinct(old(ring), head)
      ensures Moving(old(ring), 0) && node == (old(ring) + [head])[0]
      ensures Ordered(list, head) && Contents() == old(Contents())
    {
      hide Linked, Runs, Ordered, Keyed, Pairs, Circle, Moving, Pow2, SamePairs, Distinct;
      assert allocated(Of(list)) && allocated(Of(ring));
      ghost var old' := ring;
      StartMoving();
      node := head.next;
      ResetBuckets(order + 1);
      MovingFromStart(old');
    }

    /** hashtable_do_rehash */
    method Rehash()
      requires Valid()
      modifies this`order, this`buckets, this`ring, this`spans, head`prev, head`next, Of(ring)`prev, Of(ring)`next
      ensures Valid() && order == old(order) + 1 && fresh(buckets)
      ensures Contents() == old(Contents())
    {
      hide Linked, Runs, Ordered, Keyed, Distinct, Pairs, Circle, Moving, Pow2, SamePairs;
      Pow2Less(order, order + 1);
      assert allocated(Of(list));
      ghost var old' := ring;
      var node := BeginMoving();
      MoveAll(node, old');
      SameAgain(ring, old', list);
    }

    lemma MovingFromStart(old': seq<Node>)
      requires ring == [] && Distinct(old', head)
      requires forall j | 0 <= j < |old'| :: old'[j].next == (old' + [head])[j + 1]
      ensures Moving(old', 0)
    {
    }

    lemma StartMoving()
      requires Valid()
      ensures Distinct(ring, head) && head.next == (ring + [head])[0]
      ensures forall j | 0 <= j < |ring| :: ring[j].next == (ring + [head])[j + 1]
    {
      var c := Circle(ring, head);
      assert c[0].next == c[1] && c[1] == (ring + [head])[0];
      forall j | 0 <= j < |ring| ensures ring[j].next == (ring + [head])[j + 1] {
        assert c[j + 1].next == c[j + 2];
      }
    }

    lemma RingKeyed()
      requires Valid()
      ensures forall i | 0 <= i < |ring| :: ring[i].hash == hashOf(ring[i].key) && ring[i] in list
      ensures forall n | n in list :: n in ring
    {
      forall i | 0 <= i < |ring| ensures ring[i] in list {
        assert ring[i] in multiset(list);
      }
      forall n | n in list ensures n in ring {
        assert n in multiset(ring);
      }
    }

    /** Inside a bucket's run `next` leads from one pair to the next. */
    lemma RunNext(k: nat)
      requires Ring() && k + 1 < |ring|
      ensures ring[k].next == ring[k + 1]
    {
      var c := Circle(ring, head);
      assert c[k + 1].next == c[k + 2];
    }

    /** hashtable_find_pair: it only looks at the bucket's run, and that is enough. */
    method FindPair(b: nat, key: Key, hash: nat) returns (r: Node?, ghost at: nat)
      requires Valid() && hash == hashOf(key) && b == hash % Pow2(order)
      ensures r != null ==> at < |ring| && r == ring[at] && r.key == key && r in list
      ensures r == null ==> forall n | n in ring :: n.key != key
      ensures r == null ==> forall i | 0 <= i < |list| :: list[i].key != key
    {
      hide Linked, Ordered, Keyed, Pairs, Distinct;
      RingKeyed();
      RingFacts();
      ghost var s := spans[b];
      var bucket := buckets[b];
      EmptyBucket(ring, s, b, bucket, Pow2(order), head);
      at := s.lo;
      if BucketIsEmpty(bucket, head) {
        return null, at;
      }
      var node := bucket.first;
      while true
        invariant Ring() && s.lo <= at < s.hi <= |ring| && node == ring[at]
        invariant forall j | s.lo <= j < at :: ring[j].key != key
        decreases s.hi - at
      {
        if node.hash == hash && node.key == key {
          return node, at;
        }
        if node == bucket.last {
          break;
        }
        RunNext(at);
        node := node.next;
        at := at + 1;
      }
      SameNode(ring, head, at, s.hi - 1);
      r := null;
    }

    /** hashtable_get. None stands for the null pointer. */
    method Get(key: Key) returns (r: Option<Value>)
      requires Valid()
      ensures r == GetPair(Contents(), key)
    {
      hide Linked, Ordered, Runs;
      var hash := hashOf(key);
      MaskIsModulo(hash, order);
      RingKeyed();
      var node, at := FindPair(BitAnd(hash, HashMask(order)), key, hash);
      if node == null {
        r := None;
        Absent(list, key, 0);
      } else {
        r := Some(node.value);
        ghost var j :| 0 <= j < |list| && list[j] == node;
        Present(list, j, 0);
      }
    }

    /** The second half of adding a pair: it goes to the end of the ordered list. */
    method AppendPair(node: Node, ghost before: seq<Node>)
      requires Ring() && Ordered(list, head) && SamePairs(before, list) && Keyed(list, hashOf)
      requires exists p | 0 <= p <= |before| :: ring == Inserted(before, p, node)
      requires node.hash == hashOf(node.key) && node !in list && node != head
      requires size == |list| < Pow2(order) && forall i | 0 <= i < |list| :: list[i].key != node.key
      modifies this`list, this`size, head`oprev, head`onext, node`oprev, node`onext, Of(list)`onext
      ensures Valid() && Contents() == old(Contents()) + [PairOf(node)]
    {
      hide Linked, Ordered, Runs, Inserted, Keyed, SamePairs, Pairs, Circle, Distinct, Pow2;
      assert allocated(Of(list)) && allocated(Of(ring));
      OrderedNeighbours(list, head, |list|);
      NodeFacts(list, head);
      AddedPair(before, ring, list, node, hashOf);
      AddedContents(list, node);
      OrderedAppend(node, list, head);
      list := list + [node];
      size := size + 1;
    }

    /** The branch of hashtable_set for a new key. */
    method AddPair(b: nat, key: Key, value: Value, hash: nat)
      requires Valid() && size < Pow2(order) && hash == hashOf(key) && b == hash % Pow2(order)
      requires forall i | 0 <= i < |list| :: list[i].key != key
      modifies this`ring, this`spans, this`list, this`size, buckets, head, Of(ring), Of(list)
      ensures Valid() && Contents() == old(Contents()) + [Pair(key, value)]
    {
      hide Linked, Ordered, Runs, Inserted, Keyed, SamePairs, Pairs, Circle, Distinct, Pow2;
      assert allocated(Of(list)) && allocated(Of(ring));
      RingKeyed();
      RingFacts();
      var node := new Node(hash, key, value);
      ghost var before := ring;
      InsertToBucket(b, node);
      AppendPair(node, before);
    }

    /** `pair->value = value` for the pair found. */
    method Replace(node: Node, value: Value)
      requires Valid() && node in list
      modifies node`value
      ensures Valid() && Contents() == SetPair(old(Contents()), node.key, value)
    {
      hide Linked, Ordered, Runs, SetPair, SamePairs, Pairs, GetPair, DelPair, Pow2;
      ghost var j :| 0 <= j < |list| && list[j] == node;
      Present(list, j, value);
      ghost var before := Contents();
      node.value := value;
      assert Contents() == before[j := Pair(node.key, value)];
    }

    /** hashtable_set once the table has room. */
    method SetWithRoom(key: Key, value: Value)
      requires Valid() && size < Pow2(order)
      modifies this`ring, this`spans, this`list, this`size, buckets, head, Of(ring), Of(list)
      ensures Valid() && Contents() == SetPair(old(Contents()), key, value)
    {
      hide Linked, Ordered, Runs, Keyed, Pairs, SetPair, BitAnd;
      assert allocated(Of(list)) && allocated(Of(ring));
      RingKeyed();
      var hash := hashOf(key);
      MaskIsModulo(hash, order);
      var node, at := FindPair(BitAnd(hash, HashMask(order)), key, hash);
      if node != null {
        Replace(node, value);
      } else {
        Absent(list, key, value);
        AddPair(BitAnd(hash, HashMask(order)), key, value, hash);
      }
    }

    /** hashtable_set, with memory at hand: the table first grows when it is full. */
    method Set(key: Key, value: Value)
      requires Valid()
      modifies this`order, this`buckets, this`size, this`ring, this`spans, this`list, buckets, head, Of(ring), Of(list)
      ensures Valid() && Contents() == SetPair(old(Contents()), key, value)
      ensures WasSet(old(Contents()), Contents(), key, value)
    {
      UniquePairs();
      SetSpelled(Contents(), key, value);
      hide Linked, Ordered, Runs, Keyed, Pairs, SetPair, WasSet, Unique;
      assert allocated(Of(list)) && allocated(Of(ring));
      if size >= Pow2(order) {
        Rehash();
      }
      RingKeyed();
      SetWithRoom(key, value);
    }

    /** Takes a pair out of its bucket and out of the buckets' list. */
    method RemoveFromBucket(node: Node, ghost at: nat)
      requires Ring() && at < |ring| && ring[at] == node
      modifies this`ring, this`spans, buckets, head`prev, head`next, Of(ring)`prev, Of(ring)`next
      ensures Ring() && ring == Removed(old(ring), at)
      ensures old(Ordered(list, head)) ==> Ordered(list, head)
      ensures Contents() == old(Contents())
    {
      hide Linked, Runs, RunAt, Removed, Ordered, Pairs, Pow2;
      assert allocated(Of(list));
      RingFacts();
      Neighbours(ring, head, at);
      Neighbours(ring, head, at + 1);
      NodeInCircle(ring, head, at);
      var b := node.hash % Pow2(order);
      ghost var spans' := RunsRemoved(ring, spans, buckets[..], head, at);
      var bucket := buckets[b];
      if node == bucket.first && node == bucket.last {
        buckets[b] := Bucket(head, head);
      } else if node == bucket.first {
        buckets[b] := Bucket(node.next, bucket.last);
      } else if node == bucket.last {
        buckets[b] := Bucket(bucket.first, node.prev);
      }
      assert buckets[b] == RemovedBucket(bucket, ring, at, head);
      assert buckets[..] == old(buckets[..])[b := RemovedBucket(bucket, ring, at, head)];
      ListRemove(node, ring, head, at);
      ring, spans := Removed(ring, at), spans';
    }

    /** The second half of deleting: the pair leaves the ordered list. */
    method RemoveFromList(node: Node, ghost before: seq<Node>, ghost at: nat)
      requires Ring() && Ordered(list, head) && SamePairs(before, list) && Keyed(list, hashOf)
      requires at < |before| && before[at] == node && ring == Removed(before, at) && node in list
      requires size == |list| <= Pow2(order)
      modifies this`list, this`size, head`oprev, head`onext, Of(list)`onext, Of(list)`oprev
      ensures Valid() && Contents() == DelPair(old(Contents()), node.key)
    {
      hide Linked, Ordered, Runs, Removed, SamePairs, Circle, Distinct, Pow2, DelPair, GetPair, SetPair, Pairs;
      assert allocated(Of(list)) && allocated(Of(ring));
      ghost var j :| 0 <= j < |list| && list[j] == node;
      Present(list, j, 0);
      OrderedNeighbours(list, head, j);
      OrderedNeighbours(list, head, j + 1);
      NodeInCircle(list, head, j);
      RemovedPair(before, at, list, j, hashOf);
      ghost var whole := Pairs(list);
      OrderedRemove(node, list, head, j);
      RemovedContents(list, j);
      assert Pairs(list) == whole;
      list := Removed(list, j);
      size := size - 1;
    }

    /** hashtable_del: -1 for an unknown key. */
    method Del(key: Key) returns (r: int)
      requires Valid()
      modifies this`size, this`ring, this`spans, this`list, buckets, head, Of(ring), Of(list)
      ensures Valid() && Contents() == DelPair(old(Contents()), key)
      ensures r == if GetPair(old(Contents()), key).Some? then 0 else -1
      ensures r == -1 ==> Contents() == old(Contents())
      ensures forall i | 0 <= i < |old(Contents())| && old(Contents())[i].key == key ::
                r == 0 && Contents() == old(Contents())[..i] + old(Contents())[i + 1..]
    {
      ghost var was := Contents();
      UniquePairs();
      DelSpelled(was, key);
      hide Linked, Ordered, Runs, Keyed, Pairs, DelPair, GetPair, SetPair, BitAnd, Pow2, SamePairs, Removed;
      assert allocated(Of(list)) && allocated(Of(ring));
      var hash := hashOf(key);
      MaskIsModulo(hash, order);
      var node, at := FindPair(BitAnd(hash, HashMask(order)), key, hash);
      if node == null {
        Absent(list, key, 0);
        return -1;
      }
      Found(node);
      ghost var before := ring;
      RemoveFromBucket(node, at);
      RemoveFromList(node, before, at);
      r := 0;
    }

    lemma Found(node: Node)
      requires Valid() && node in list
      ensures GetPair(Contents(), node.key) == Some(node.value)
    {
      var j :| 0 <= j < |list| && list[j] == node;
      Present(list, j, 0);
    }

    /** hashtable_clear; giving the pairs' memory back is not part of the model. */
    method Clear()
      requires Valid()
      modifies this`size, this`ring, this`spans, this`list, buckets, head
      ensures Valid() && Contents() == [] && order == old(order)
    {
      var i := 0;
      while i < Pow2(order)
        invariant 0 <= i <= Pow2(order) == buckets.Length && order == old(order) && buckets == old(buckets)
        invariant forall b | 0 <= b < i :: buckets[b] == Bucket(head, head)
      {
        buckets[i] := Bucket(head, head);
        i := i + 1;
      }
      head.next, head.prev := head, head;
      head.onext, head.oprev := head, head;
      size, ring, list := 0, [], [];
      spans := seq(Pow2(order), b => Span(0, 0));
      EmptyTable(buckets[..], spans, head);
    }

    /** hashtable_iter_next; hashtable_iter starts it at the list's head. */
    method IterNext(iter: Node, ghost k: nat) returns (r: Node?)
      requires Valid() && k <= |list| && iter == ([head] + list)[k]
      ensures if k < |list| then r == list[k] && PairOf(list[k]) == Contents()[k] else r == null
    {
      hide Linked, Runs, Keyed, Pairs, Ordered, SamePairs;
      OrderedNeighbours(list, head, k);
      CircleEnds(list, head, k);
      if iter.onext == head {
        return null;
      }
      r := iter.onext;
    }

    lemma UniquePairs()
      requires Valid()
      ensures Unique(Contents())
    {
      hide Linked, Ordered, Runs;
    }

    /** hashtable_iter_at */
    method IterAt(key: Key) returns (r: Node?)
      requires Valid()
      ensures r != null ==> r in list && r.key == key
      ensures r == null ==> GetPair(Contents(), key).None?
    {
      hide Linked, Ordered, Runs, Pairs, GetPair, SetPair, DelPair;
      var hash := hashOf(key);
      MaskIsModulo(hash, order);
      var node, at := FindPair(BitAnd(hash, HashMask(order)), key, hash);
      if node == null {
        Absent(list, key, 0);
      }
      r := node;
    }
  }

  lemma CircleEnds(nodes: seq<Node>, head: Node, k: nat)
    requires k <= |nodes| && head !in nodes
    ensures Circle(nodes, head)[k] == ([head] + nodes)[k]
    ensures k < |nodes| ==> Circle(nodes, head)[k + 1] == nodes[k] && nodes[k] != head
    ensures k == |nodes| ==> Circle(nodes, head)[k + 1] == head
  {
  }

  lemma RemovedPair(before: seq<Node>, at: nat, list: seq<Node>, j: nat, hashOf: Key -> nat)
    requires SamePairs(before, list) && Keyed(list, hashOf)
    requires at < |before| && j < |list| && before[at] == list[j]
    ensures SamePairs(Removed(before, at), Removed(list, j)) && Keyed(Removed(list, j), hashOf)
    ensures |Removed(list, j)| == |list| - 1
  {
    WithoutOne(before, at);
    WithoutOne(list, j);
    var l := Removed(list, j);
    assert forall i | 0 <= i < |l| :: l[i] == if i < j then list[i] else list[i + 1];
  }

  lemma WithoutOne(nodes: seq<Node>, p: nat)
    requires p < |nodes|
    ensures multiset(Removed(nodes, p)) == multiset(nodes) - multiset{nodes[p]}
  {
    assert nodes == nodes[..p] + [nodes[p]] + nodes[p + 1..];
  }

  lemma RemovedContents(nodes: seq<Node>, j: nat)
    requires j < |nodes|
    ensures Pairs(Removed(nodes, j)) == Pairs(nodes)[..j] + Pairs(nodes)[j + 1..]
  {
    hide Pairs;
    var l, ps := Removed(nodes, j), Pairs(nodes);
    var qs := ps[..j] + ps[j + 1..];
    forall i | 0 <= i < |l| ensures Pairs(l)[i] == qs[i] {
      assert l[i] == if i < j then nodes[i] else nodes[i + 1];
      assert qs[i] == if i < j then ps[i] else ps[i + 1];
    }
  }

  lemma NodeFacts(nodes: seq<Node>, head: Node)
    ensures |Circle(nodes, head)| == |nodes| + 2 && Circle(nodes, head)[|nodes| + 1] == head
  {
  }

  lemma AddedPair(before: seq<Node>, ring: seq<Node>, list: seq<Node>, node: Node, hashOf: Key -> nat)
    requires exists p | 0 <= p <= |before| :: ring == Inserted(before, p, node)
    requires SamePairs(before, list) && Keyed(list, hashOf)
    requires node.hash == hashOf(node.key) && forall i | 0 <= i < |list| :: list[i].key != node.key
    ensures SamePairs(ring, list + [node]) && Keyed(list + [node], hashOf)
  {
    var p :| 0 <= p <= |before| && ring == Inserted(before, p, node);
    assert before == before[..p] + before[p..];
    assert multiset(ring) == multiset(before) + multiset{node};
  }

  lemma {:induction false} AddedContents(nodes: seq<Node>, node: Node)
    ensures Pairs(nodes + [node]) == Pairs(nodes) + [PairOf(node)]
  {
    hide Pairs;
    assert |Pairs(nodes + [node])| == |nodes| + 1;
  }

  lemma {:induction false} Absent(nodes: seq<Node>, key: Key, value: Value)
    requires forall i | 0 <= i < |nodes| :: nodes[i].key != key
    ensures GetPair(Pairs(nodes), key) == None && DelPair(Pairs(nodes), key) == Pairs(nodes)
    ensures SetPair(Pairs(nodes), key, value) == Pairs(nodes) + [Pair(key, value)]
  {
    if nodes != [] {
      Absent(nodes[1..], key, value);
      assert Pairs(nodes)[1..] == Pairs(nodes[1..]);
    }
  }

  /** What the map's operations do at the place of a key. */
  lemma {:induction false} PairAt(ps: seq<Pair>, j: nat, value: Value)
    requires j < |ps| && Unique(ps)
    ensures GetPair(ps, ps[j].key) == Some(ps[j].value)
    ensures DelPair(ps, ps[j].key) == ps[..j] + ps[j + 1..]
    ensures SetPair(ps, ps[j].key, value) == ps[j := Pair(ps[j].key, value)]
  {
    if j > 0 {
      assert ps[0].key != ps[j].key && ps[1..][j - 1] == ps[j];
      PairAt(ps[1..], j - 1, value);
      BehindFirst(ps, j, Pair(ps[j].key, value));
    }
  }

  lemma Present(nodes: seq<Node>, j: nat, value: Value)
    requires j < |nodes| && forall i, k | 0 <= i < k < |nodes| :: nodes[i].key != nodes[k].key
    ensures GetPair(Pairs(nodes), nodes[j].key) == Some(nodes[j].value)
    ensures DelPair(Pairs(nodes), nodes[j].key) == Pairs(nodes)[..j] + Pairs(nodes)[j + 1..]
    ensures SetPair(Pairs(nodes), nodes[j].key, value) == Pairs(nodes)[j := Pair(nodes[j].key, value)]
  {
    hide GetPair, DelPair, SetPair;
    PairAt(Pairs(nodes), j, value);
  }

  lemma BehindFirst<T>(s: seq<T>, j: nat, x: T)
    requires 0 < j < |s|
    ensures [s[0]] + s[1..][j - 1 := x] == s[j := x]
    ensures [s[0]] + (s[1..][..j - 1] + s[1..][j..]) == s[..j] + s[j + 1..]
  {
    assert s[..j] == [s[0]] + s[1..][..j - 1] && s[1..][j..] == s[j + 1..];
  }

  lemma SameNode(nodes: seq<Node>, head: Node, i: nat, j: nat)
    requires Distinct(nodes, head) && i < |nodes| && j < |nodes| && nodes[i] == nodes[j]
    ensures i == j
  {
  }

  lemma EmptyList(head: Node)
    requires head.next == head && head.prev == head
    ensures Linked([], head)
  {
  }

  lemma MovedSubset(ring: seq<Node>, old': seq<Node>, k: nat)
    requires k <= |old'| && multiset(ring) == multiset(old'[..k])
    ensures Of(ring) <= Of(old')
  {
    forall n | n in ring ensures n in old' {
      assert n in multiset(ring);
    }
  }

  /** The moved node is in the new list, the nodes after it are not. */
  lemma MovedOne(old': seq<Node>, k: nat, before: seq<Node>, ring: seq<Node>, node: Node)
    requires k < |old'| && node == old'[k] && multiset(before) == multiset(old'[..k])
    requires forall i, j | 0 <= i < j < |old'| :: old'[i] != old'[j]
    requires forall j | k <= j < |old'| :: old'[j] !in before
    requires exists p | 0 <= p <= |before| :: ring == Inserted(before, p, node)
    ensures multiset(ring) == multiset(old'[..k + 1])
    ensures forall j | k < j < |old'| :: old'[j] !in ring
  {
    var p :| 0 <= p <= |before| && ring == Inserted(before, p, node);
    InsertedOnce(before, p, node);
    hide Inserted;
    assert old'[..k + 1] == old'[..k] + [node];
  }

  lemma InsertedOnce(before: seq<Node>, p: nat, node: Node)
    requires p <= |before|
    ensures multiset(Inserted(before, p, node)) == multiset(before) + multiset{node}
    ensures forall x | x in Inserted(before, p, node) :: x in before || x == node
  {
    assert before == before[..p] + before[p..];
  }

  /** Empty buckets over an empty list. */
  lemma EmptyTable(buckets: seq<Bucket>, spans: seq<Span>, head: Node)
    requires |buckets| == |spans| > 0
    requires forall b | 0 <= b < |buckets| :: buckets[b] == Bucket(head, head) && spans[b] == Span(0, 0)
    ensures Runs([], spans, buckets, head)
  {
  }
}
