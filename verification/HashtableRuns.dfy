/**
 How jansson's buckets lie in the one list that all of them share: the pairs of a bucket are
 neighbours, and the bucket points to the first and the last of them.
 */
module HashtableRuns {
  import opened HashtableLists

  datatype Bucket = Bucket(first: Node, last: Node)

  /** Where a bucket's pairs lie; `lo == hi` for none. */
  datatype Span = Span(lo: nat, hi: nat)

  predicate InSpan(s: Span, k: int) {
    s.lo <= k < s.hi
  }

  function Index(node: Node, size: nat): nat
    requires size > 0
  {
    node.hash % size
  }

  /** Bucket `b` holds exactly the pairs whose hash says so, and they lie at `s`. */
  ghost predicate RunAt(nodes: seq<Node>, s: Span, b: nat, bucket: Bucket, size: nat, head: Node)
    requires size > 0
  {
    && s.lo <= s.hi <= |nodes|
    && (forall k | 0 <= k < |nodes| :: InSpan(s, k) <==> Index(nodes[k], size) == b)
    && bucket == if s.lo == s.hi then Bucket(head, head) else Bucket(nodes[s.lo], nodes[s.hi - 1])
  }

  ghost predicate Runs(nodes: seq<Node>, spans: seq<Span>, buckets: seq<Bucket>, head: Node) {
    && |spans| == |buckets| > 0
    && forall b | 0 <= b < |buckets| :: RunAt(nodes, spans[b], b, buckets[b], |buckets|, head)
  }

  predicate BucketIsEmpty(bucket: Bucket, head: Node) {
    bucket.first == head && bucket.first == bucket.last
  }

  // ---------------------------------------------------------------- insert_to_bucket

  /** Where a new pair of the bucket goes: before the bucket's first, or to the end of the list. */
  function InsertAt(s: Span, n: nat): nat {
    if s.lo == s.hi then n else s.lo
  }

  function InsertedBucket(bucket: Bucket, node: Node, head: Node): Bucket {
    if BucketIsEmpty(bucket, head) then Bucket(node, node) else Bucket(node, bucket.last)
  }

  function InsertedSpan(s: Span, b: nat, own: nat, n: nat, p: nat): Span {
    if b == own then (if s.lo == s.hi then Span(n, n + 1) else Span(s.lo, s.hi + 1))
    else if s.lo >= p then Span(s.lo + 1, s.hi + 1)
    else s
  }

  function InsertedSpans(spans: seq<Span>, own: nat, n: nat): (r: seq<Span>)
    requires own < |spans|
    ensures |r| == |spans|
  {
    seq(|spans|, b requires 0 <= b < |spans| => InsertedSpan(spans[b], b, own, n, InsertAt(spans[own], n)))
  }

  lemma EmptyBucket(nodes: seq<Node>, s: Span, b: nat, bucket: Bucket, size: nat, head: Node)
    requires size > 0 && RunAt(nodes, s, b, bucket, size, head) && head !in nodes
    ensures BucketIsEmpty(bucket, head) <==> s.lo == s.hi
  {
  }

  /** The other buckets' pairs move up or stay as a whole. */
  lemma RunMoves(nodes: seq<Node>, s: Span, b: nat, bucket: Bucket, size: nat, head: Node, own: Span, o: nat, node: Node)
    requires size > 0 && RunAt(nodes, s, b, bucket, size, head) && b != o && Index(node, size) == o
    requires own.lo <= own.hi <= |nodes| && forall k | 0 <= k < |nodes| :: InSpan(own, k) ==> Index(nodes[k], size) == o
    ensures var p := InsertAt(own, |nodes|);
            RunAt(Inserted(nodes, p, node), InsertedSpan(s, b, o, |nodes|, p), b, bucket, size, head)
  {
    var p := InsertAt(own, |nodes|);
    var ns := Inserted(nodes, p, node);
    var s' := InsertedSpan(s, b, o, |nodes|, p);
    assert p < |nodes| ==> InSpan(own, p);
    assert s.lo < p ==> s.hi <= p || !InSpan(s, p);
    forall k | 0 <= k < |ns| ensures InSpan(s', k) <==> Index(ns[k], size) == b {
      if k < p {
        assert ns[k] == nodes[k];
      } else if k > p {
        assert ns[k] == nodes[k - 1];
      }
    }
  }

  lemma RunGrows(nodes: seq<Node>, s: Span, b: nat, bucket: Bucket, size: nat, head: Node, node: Node)
    requires size > 0 && RunAt(nodes, s, b, bucket, size, head) && Index(node, size) == b && head !in nodes
    ensures var p := InsertAt(s, |nodes|);
            RunAt(Inserted(nodes, p, node), InsertedSpan(s, b, b, |nodes|, p), b, InsertedBucket(bucket, node, head), size, head)
  {
    EmptyBucket(nodes, s, b, bucket, size, head);
    var p := InsertAt(s, |nodes|);
    var ns := Inserted(nodes, p, node);
    var s' := InsertedSpan(s, b, b, |nodes|, p);
    forall k | 0 <= k < |ns| ensures InSpan(s', k) <==> Index(ns[k], size) == b {
      if k < p {
        assert ns[k] == nodes[k];
      } else if k > p {
        assert ns[k] == nodes[k - 1];
      }
    }
  }

  /** Inserting keeps every bucket one run. */
  lemma RunsInserted(nodes: seq<Node>, spans: seq<Span>, buckets: seq<Bucket>, head: Node, node: Node)
    requires Runs(nodes, spans, buckets, head) && head !in nodes
    ensures var b := Index(node, |buckets|);
            Runs(Inserted(nodes, InsertAt(spans[b], |nodes|), node), InsertedSpans(spans, b, |nodes|),
                 buckets[b := InsertedBucket(buckets[b], node, head)], head)
  {
    hide InsertedSpan, Inserted, InsertedBucket;
    var size := |buckets|;
    var o := Index(node, size);
    forall b | 0 <= b < size && b != o
      ensures RunAt(Inserted(nodes, InsertAt(spans[o], |nodes|), node), InsertedSpans(spans, o, |nodes|)[b], b, buckets[b], size, head)
    {
      RunMoves(nodes, spans[b], b, buckets[b], size, head, spans[o], o, node);
    }
    RunGrows(nodes, spans[o], o, buckets[o], size, head, node);
  }

  // ---------------------------------------------------------------- hashtable_do_del

  function RemovedSpan(s: Span, b: nat, own: nat, p: nat): Span
    requires b == own ==> s.hi > 0
    requires s.lo > p ==> s.hi > 0
  {
    if b == own then Span(s.lo, s.hi - 1)
    else if s.lo > p then Span(s.lo - 1, s.hi - 1)
    else s
  }

  /** What hashtable_do_del does to the bucket of the pair at `p`. */
  ghost function RemovedBucket(bucket: Bucket, nodes: seq<Node>, p: nat, head: Node): Bucket
    requires p < |nodes|
  {
    var c := Circle(nodes, head);
    if nodes[p] == bucket.first && nodes[p] == bucket.last then Bucket(head, head)
    else if nodes[p] == bucket.first then Bucket(c[p + 2], bucket.last)
    else if nodes[p] == bucket.last then Bucket(bucket.first, c[p])
    else bucket
  }

  lemma RunShrinks(nodes: seq<Node>, s: Span, b: nat, bucket: Bucket, size: nat, head: Node, p: nat)
    requires size > 0 && RunAt(nodes, s, b, bucket, size, head) && Distinct(nodes, head)
    requires p < |nodes| && Index(nodes[p], size) == b
    ensures s.hi > 0
    ensures RunAt(Removed(nodes, p), RemovedSpan(s, b, b, p), b, RemovedBucket(bucket, nodes, p, head), size, head)
  {
    assert InSpan(s, p);
    var ns := Removed(nodes, p);
    var s' := RemovedSpan(s, b, b, p);
    forall k | 0 <= k < |ns| ensures InSpan(s', k) <==> Index(ns[k], size) == b {
      assert ns[k] == if k < p then nodes[k] else nodes[k + 1];
    }
  }

  lemma RunStays(nodes: seq<Node>, s: Span, b: nat, bucket: Bucket, size: nat, head: Node, own: nat, p: nat)
    requires size > 0 && RunAt(nodes, s, b, bucket, size, head) && b != own
    requires p < |nodes| && Index(nodes[p], size) == own
    ensures RunAt(Removed(nodes, p), RemovedSpan(s, b, own, p), b, bucket, size, head)
  {
    assert !InSpan(s, p);
    var ns := Removed(nodes, p);
    var s' := RemovedSpan(s, b, own, p);
    forall k | 0 <= k < |ns| ensures InSpan(s', k) <==> Index(ns[k], size) == b {
      assert ns[k] == if k < p then nodes[k] else nodes[k + 1];
    }
  }

  /** Removing keeps every bucket one run. */
  lemma RunsRemoved(nodes: seq<Node>, spans: seq<Span>, buckets: seq<Bucket>, head: Node, p: nat) returns (spans': seq<Span>)
    requires Runs(nodes, spans, buckets, head) && Distinct(nodes, head) && p < |nodes|
    ensures var b := Index(nodes[p], |buckets|);
            Runs(Removed(nodes, p), spans', buckets[b := RemovedBucket(buckets[b], nodes, p, head)], head)
  {
    hide Removed, RemovedBucket;
    var size := |buckets|;
    var o := Index(nodes[p], size);
    RunShrinks(nodes, spans[o], o, buckets[o], size, head, p);
    spans' := seq(size, b requires 0 <= b < size => RemovedSpan(spans[b], b, o, p));
    forall b | 0 <= b < size && b != o ensures RunAt(Removed(nodes, p), spans'[b], b, buckets[b], size, head) {
      RunStays(nodes, spans[b], b, buckets[b], size, head, o, p);
    }
  }
}
