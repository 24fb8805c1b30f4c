/** The intrusive circular lists of jansson's hash table. */
module HashtableLists {
  import opened Utf8

  type Key = Bytes
  type Value = int

  /** A pair, or the table itself, whose two list heads are one node here. */
  class Node {
    const hash: nat
    const key: Key
    var value: Value
    /** `list` */
    var prev: Node
    var next: Node
    /** `ordered_list` */
    var oprev: Node
    var onext: Node

    /** Both `list_init`s leave the node alone in its lists. */
    constructor (hash: nat, key: Key, value: Value)
      ensures this.hash == hash && this.key == key && this.value == value
      ensures prev == this && next == this && oprev == this && onext == this
    {
      this.hash, this.key, this.value := hash, key, value;
      prev, next, oprev, onext := this, this, this, this;
    }
  }

  ghost predicate Distinct(nodes: seq<Node>, head: Node) {
    head !in nodes && forall i, j | 0 <= i < j < |nodes| :: nodes[i] != nodes[j]
  }

  /** The nodes of a list between its two ends, which are both the head. */
  ghost function Circle(nodes: seq<Node>, head: Node): seq<Node> {
    [head] + nodes + [head]
  }

  ghost function Of(nodes: seq<Node>): set<Node> {
    set n | n in nodes
  }

  /** `next` and `prev` run through the nodes and back to the head. */
  ghost predicate Linked(nodes: seq<Node>, head: Node)
    reads head`next, head`prev, Of(nodes)`next, Of(nodes)`prev
  {
    Distinct(nodes, head) &&
    var c := Circle(nodes, head);
    forall i | 0 <= i <= |nodes| :: c[i].next == c[i + 1] && c[i + 1].prev == c[i]
  }

  /** The same for the list in insertion order. */
  ghost predicate Ordered(nodes: seq<Node>, head: Node)
    reads head`onext, head`oprev, Of(nodes)`onext, Of(nodes)`oprev
  {
    Distinct(nodes, head) &&
    var c := Circle(nodes, head);
    forall i | 0 <= i <= |nodes| :: c[i].onext == c[i + 1] && c[i + 1].oprev == c[i]
  }

  function Inserted(nodes: seq<Node>, p: nat, node: Node): seq<Node>
    requires p <= |nodes|
  {
    nodes[..p] + [node] + nodes[p..]
  }

  function Removed(nodes: seq<Node>, p: nat): seq<Node>
    requires p < |nodes|
  {
    nodes[..p] + nodes[p + 1..]
  }

  lemma CircleDistinct(nodes: seq<Node>, head: Node)
    requires Distinct(nodes, head)
    ensures var c := Circle(nodes, head);
            && (forall i, j | 0 <= i < j <= |nodes| :: c[i] != c[j])
            && (forall i, j | 0 < i < j <= |nodes| + 1 :: c[i] != c[j])
  {
  }

  lemma CircleInserted(nodes: seq<Node>, head: Node, p: nat, node: Node)
    requires Distinct(nodes, head) && p <= |nodes| && node !in nodes && node != head
    ensures var c, d := Circle(nodes, head), Circle(Inserted(nodes, p, node), head);
            && Distinct(Inserted(nodes, p, node), head)
            && |Inserted(nodes, p, node)| == |nodes| + 1 && |d| == |c| + 1 == |nodes| + 3 && d[p + 1] == node
            && (forall i | 0 <= i <= p :: d[i] == c[i])
            && (forall i | p + 1 < i < |d| :: d[i] == c[i - 1])
  {
  }

  lemma CircleRemoved(nodes: seq<Node>, head: Node, p: nat)
    requires Distinct(nodes, head) && p < |nodes|
    ensures var c, d := Circle(nodes, head), Circle(Removed(nodes, p), head);
            && Distinct(Removed(nodes, p), head)
            && |Removed(nodes, p)| == |nodes| - 1 && |d| == |c| - 1 == |nodes| + 1
            && (forall i | 0 <= i <= p :: d[i] == c[i])
            && (forall i | p < i < |d| :: d[i] == c[i + 1])
  {
  }

  /** Neighbours in a list are its nodes or its head. */
  lemma Neighbours(nodes: seq<Node>, head: Node, p: nat)
    requires Linked(nodes, head) && p <= |nodes|
    ensures var c := Circle(nodes, head);
            && c[p + 1].prev == c[p] && c[p].next == c[p + 1]
            && (c[p] == head || c[p] in nodes) && (c[p + 1] == head || c[p + 1] in nodes)
  {
  }

  lemma OrderedNeighbours(nodes: seq<Node>, head: Node, p: nat)
    requires Ordered(nodes, head) && p <= |nodes|
    ensures var c := Circle(nodes, head);
            && head !in nodes && c[p + 1].oprev == c[p] && c[p].onext == c[p + 1]
            && (c[p] == head || c[p] in nodes) && (c[p + 1] == head || c[p + 1] in nodes)
  {
  }

  /** list_insert: puts the node before `list`. */
  method ListInsert(list: Node, node: Node, ghost nodes: seq<Node>, ghost head: Node, ghost p: nat)
    requires Linked(nodes, head) && p <= |nodes| && list == Circle(nodes, head)[p + 1]
    requires node !in nodes && node != head
    modifies list`prev, list.prev`next, node`prev, node`next
    ensures Linked(Inserted(nodes, p, node), head)
  {
    hide Circle, Inserted;
    ghost var c := Circle(nodes, head);
    CircleDistinct(nodes, head);
    CircleInserted(nodes, head, p, node);
    assert list.prev == c[p] && node !in c by { NotInCircle(nodes, head, node); }
    node.next := list;
    node.prev := list.prev;
    list.prev.next := node;
    list.prev := node;
  }

  lemma NotInCircle(nodes: seq<Node>, head: Node, node: Node)
    requires node !in nodes && node != head
    ensures node !in Circle(nodes, head) && |Circle(nodes, head)| == |nodes| + 2
    ensures head == Circle(nodes, head)[0] == Circle(nodes, head)[|nodes| + 1]
  {
  }

  /** list_remove */
  method ListRemove(node: Node, ghost nodes: seq<Node>, ghost head: Node, ghost p: nat)
    requires Linked(nodes, head) && p < |nodes| && node == nodes[p]
    modifies node.prev`next, node.next`prev
    ensures Linked(Removed(nodes, p), head)
  {
    hide Circle, Removed;
    CircleDistinct(nodes, head);
    CircleRemoved(nodes, head, p);
    NodeInCircle(nodes, head, p);
    ghost var c := Circle(nodes, head);
    assert c[p].next == c[p + 1] && c[p + 1].prev == c[p] && c[p + 1].next == c[p + 2];
    node.prev.next := node.next;
    node.next.prev := node.prev;
  }

  lemma NodeInCircle(nodes: seq<Node>, head: Node, p: nat)
    requires p < |nodes|
    ensures |Circle(nodes, head)| == |nodes| + 2 && Circle(nodes, head)[p + 1] == nodes[p]
    ensures head == Circle(nodes, head)[0] == Circle(nodes, head)[|nodes| + 1]
  {
  }

  /** list_insert on the ordered list's head: puts the node last. */
  method OrderedAppend(node: Node, ghost nodes: seq<Node>, head: Node)
    requires Ordered(nodes, head) && node !in nodes && node != head
    modifies head`oprev, head.oprev`onext, node`oprev, node`onext
    ensures Ordered(nodes + [node], head)
  {
    hide Circle, Inserted;
    CircleDistinct(nodes, head);
    CircleInserted(nodes, head, |nodes|, node);
    NotInCircle(nodes, head, node);
    AppendIsInsert(nodes, node);
    ghost var c := Circle(nodes, head);
    assert c[|nodes|].onext == c[|nodes| + 1] && c[|nodes| + 1].oprev == c[|nodes|];
    node.onext := head;
    node.oprev := head.oprev;
    head.oprev.onext := node;
    head.oprev := node;
  }

  lemma AppendIsInsert(nodes: seq<Node>, node: Node)
    ensures Inserted(nodes, |nodes|, node) == nodes + [node]
  {
  }

  method OrderedRemove(node: Node, ghost nodes: seq<Node>, ghost head: Node, ghost p: nat)
    requires Ordered(nodes, head) && p < |nodes| && node == nodes[p]
    modifies node.oprev`onext, node.onext`oprev
    ensures Ordered(Removed(nodes, p), head)
  {
    hide Circle, Removed;
    CircleDistinct(nodes, head);
    CircleRemoved(nodes, head, p);
    NodeInCircle(nodes, head, p);
    ghost var c := Circle(nodes, head);
    assert c[p].onext == c[p + 1] && c[p + 1].oprev == c[p] && c[p + 1].onext == c[p + 2];
    node.oprev.onext := node.onext;
    node.onext.oprev := node.oprev;
  }
}
