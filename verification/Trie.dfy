/**
 The trie with use counts. Instead of a tree, the proofs see a map from prefixes to nodes: a prefix has a
 node exactly if some stored key, or an insertion under way, uses it.
 */
module Trie {
  import opened Wrappers

  /** Characters 1 to 127; the key's NUL is its end. */
  type Key = seq<int>
  type Value = int

  predicate KeyOk(key: Key) {
    forall i | 0 <= i < |key| :: 0 < key[i] < 128
  }

  class TrieNode {
    var data: Option<Value>
    var useCount: int
    const next: array<TrieNode?>

    /** calloc */
    constructor ()
      ensures data == None && useCount == 0 && next.Length == 256 && fresh(next)
      ensures forall c | 0 <= c < 256 :: next[c] == null
    {
      data, useCount := None, 0;
      next := new TrieNode?[256](i => null);
    }
  }

  type Nodes = map<Key, TrieNode>

  ghost function Get(nodes: Nodes, p: Key): TrieNode? {
    if p in nodes then nodes[p] else null
  }

  function Ext(p: Key, c: int): Key {
    p + [c]
  }

  ghost function Objects(nodes: Nodes): set<TrieNode> {
    set p | p in nodes :: nodes[p]
  }

  ghost function Tables(nodes: Nodes): set<array<TrieNode?>> {
    set p | p in nodes :: nodes[p].next
  }

  /** Every prefix has a node of its own. */
  ghost predicate Separate(nodes: Nodes) {
    && (forall p | p in nodes :: nodes[p].next.Length == 256)
    && (forall p, q | p in nodes && q in nodes && p != q :: nodes[p] != nodes[q] && nodes[p].next != nodes[q].next)
  }

  /** Each node points to the nodes of the prefixes one character longer. */
  ghost predicate Linked(nodes: Nodes)
    requires Separate(nodes)
    reads Tables(nodes)
  {
    forall p, c | p in nodes && 0 <= c < 256 :: nodes[p].next[c] == Get(nodes, Ext(p, c))
  }

  ghost function Users(stored: map<Key, Value>, p: Key): set<Key> {
    set k | k in stored && p <= k
  }

  /** How many stored keys start with `p`. */
  ghost function Count(stored: map<Key, Value>, p: Key): nat {
    |Users(stored, p)|
  }

  /** The use count of a prefix while a key is counted at the prefixes of length `lo` to `hi` only. */
  ghost function Uses(stored: map<Key, Value>, key: Key, lo: nat, hi: nat, p: Key): nat {
    Count(stored, p) + if p <= key && lo <= |p| < hi then 1 else 0
  }

  ghost function DataOf(stored: map<Key, Value>, p: Key): Option<Value> {
    if p in stored then Some(stored[p]) else None
  }

  lemma CountAdd(stored: map<Key, Value>, key: Key, value: Value, p: Key)
    requires key !in stored
    ensures Count(stored[key := value], p) == Count(stored, p) + if p <= key then 1 else 0
  {
    assert Users(stored[key := value], p) == if p <= key then Users(stored, p) + {key} else Users(stored, p);
  }

  lemma CountReplace(stored: map<Key, Value>, key: Key, value: Value, p: Key)
    requires key in stored
    ensures Count(stored[key := value], p) == Count(stored, p)
  {
    assert Users(stored, p) == Users(stored[key := value], p);
  }

  lemma CountRemove(stored: map<Key, Value>, key: Key, p: Key)
    requires key in stored
    ensures Count(stored, p) == Count(stored - {key}, p) + if p <= key then 1 else 0
  {
    var less := Users(stored - {key}, p);
    assert Users(stored, p) == if p <= key then less + {key} else less;
  }

  lemma CountPositive(stored: map<Key, Value>, key: Key, i: nat)
    requires key in stored && i <= |key|
    ensures Count(stored, key[..i]) > 0
  {
    assert key in Users(stored, key[..i]);
  }

  lemma CountRoot(stored: map<Key, Value>)
    ensures Count(stored, []) == |stored|
  {
    assert Users(stored, []) == stored.Keys;
  }

  /** One prefix fewer is counted. */
  lemma UsesFall(stored: map<Key, Value>, key: Key, lo: nat, hi: nat)
    requires lo < hi && lo <= |key|
    ensures forall p :: Uses(stored, key, lo, hi, p) == Uses(stored, key, lo + 1, hi, p) + if p == key[..lo] then 1 else 0
  {
    forall p ensures Uses(stored, key, lo, hi, p) == Uses(stored, key, lo + 1, hi, p) + if p == key[..lo] then 1 else 0 {
      assert p <= key && |p| == lo <==> p == key[..lo];
    }
  }

  /** One prefix more is counted. */
  lemma UsesRise(stored: map<Key, Value>, key: Key, hi: nat)
    requires hi <= |key|
    ensures forall p :: Uses(stored, key, 0, hi + 1, p) == Uses(stored, key, 0, hi, p) + if p == key[..hi] then 1 else 0
  {
    forall p ensures Uses(stored, key, 0, hi + 1, p) == Uses(stored, key, 0, hi, p) + if p == key[..hi] then 1 else 0 {
      assert p <= key && |p| == hi <==> p == key[..hi];
    }
  }

  lemma ForgetUses(stored: map<Key, Value>, key: Key)
    requires key in stored
    ensures forall p :: Uses(stored - {key}, key, 0, |key| + 1, p) == Uses(stored, [], 0, 0, p)
  {
    forall p ensures Uses(stored - {key}, key, 0, |key| + 1, p) == Uses(stored, [], 0, 0, p) {
      CountRemove(stored, key, p);
    }
  }

  lemma InsertedUses(stored: map<Key, Value>, key: Key, value: Value, after: map<Key, Value>)
    requires key !in stored && after == stored[key := value]
    ensures forall p :: Uses(stored, key, 0, |key| + 1, p) == Uses(after, [], 0, 0, p)
  {
    forall p ensures Uses(stored, key, 0, |key| + 1, p) == Uses(after, [], 0, 0, p) {
      CountAdd(stored, key, value, p);
    }
  }

  lemma ReplacedUses(stored: map<Key, Value>, key: Key, value: Value, after: map<Key, Value>)
    requires key in stored && after == stored[key := value]
    ensures forall p :: Uses(stored, [], 0, 0, p) == Uses(after, [], 0, 0, p)
  {
    forall p ensures Uses(stored, [], 0, 0, p) == Uses(after, [], 0, 0, p) {
      CountReplace(stored, key, value, p);
    }
  }

  /** A prefix extends only the prefix one shorter. */
  lemma ExtIs(key: Key, j: nat, q: Key, c: int)
    requires j <= |key|
    ensures Ext(q, c) == key[..j] <==> j > 0 && q == key[..j - 1] && c == key[j - 1]
  {
    if Ext(q, c) == key[..j] {
      assert Ext(q, c)[..|q|] == q && Ext(q, c)[|q|] == c;
    }
    if j > 0 {
      assert key[..j] == key[..j - 1] + [key[j - 1]];
    }
  }

  /** The prefixes of the stored keys, and no others, have nodes. */
  ghost predicate Covered(nodes: Nodes, stored: map<Key, Value>) {
    forall p :: p in nodes <==> Count(stored, p) > 0
  }

  /** The nodes there were are still there. */
  ghost predicate Kept(before: Nodes, after: Nodes) {
    forall p | p in before :: p in after && after[p] == before[p]
  }

  lemma KeptWith(before: Nodes, was: Nodes, p: Key, node: TrieNode, after: Nodes)
    requires Kept(before, was) && after == was[p := node] && (p in was ==> node == was[p])
    ensures Kept(before, after)
  {
  }

  /** The stored keys determine which prefixes have a node. */
  lemma SameNodes(before: Nodes, grown: Nodes, after: Nodes, stored: map<Key, Value>)
    requires Covered(before, stored) && Covered(after, stored)
    requires Kept(before, grown) && Kept(after, grown)
    ensures after == before
  {
    assert forall p :: p in after <==> p in before;
  }

  /** A `TrieNode **`: nowhere, the root pointer, or an entry of a node's table. */
  datatype Place = Nowhere | AtRoot | AtNext(node: TrieNode, c: int)

  class Trie {
    var root: TrieNode?
    ghost var nodes: Nodes
    ghost var stored: map<Key, Value>

    /** The nodes hang together as their prefixes say. */
    ghost predicate Tree()
      reads this`root, this`nodes, Tables(nodes)
    {
      Separate(nodes) && Linked(nodes) && root == Get(nodes, [])
    }

    /** There is a node for every prefix in use, with the right count and data. */
    ghost predicate Figures(key: Key, lo: nat, hi: nat)
      reads this`nodes, this`stored, Objects(nodes)`useCount, Objects(nodes)`data
    {
      && (forall p :: p in nodes <==> Uses(stored, key, lo, hi, p) > 0)
      && (forall p | p in nodes ::
            nodes[p].useCount == Uses(stored, key, lo, hi, p) && nodes[p].data == DataOf(stored, p))
    }

    /** Everything is right, with `key` counted at the prefixes of length `lo` to `hi` besides. */
    ghost predicate Sized(key: Key, lo: nat, hi: nat)
      reads this`root, this`nodes, this`stored, Tables(nodes), Objects(nodes)`useCount, Objects(nodes)`data
    {
      Tree() && Figures(key, lo, hi) && forall k | k in stored :: KeyOk(k)
    }

    /** Every prefix of a stored key has a node that counts the keys below it, and there are no other nodes. */
    ghost predicate Valid()
      reads this`root, this`nodes, this`stored, Tables(nodes), Objects(nodes)`useCount, Objects(nodes)`data
    {
      Sized([], 0, 0)
    }

    constructor ()
      ensures Valid() && stored == map[]
    {
      root, nodes, stored := null, map[], map[];
    }

    /** trie_num_entries */
    method NumEntries() returns (n: int)
      requires Valid()
      ensures n == |stored|
    {
      CountRoot(stored);
      n := if root == null then 0 else root.useCount;
    }

    /** trie_find_end */
    method FindEnd(key: Key) returns (node: TrieNode?)
      requires Valid() && KeyOk(key)
      ensures node == Get(nodes, key)
    {
      hide Count;
      node := root;
      var i := 0;
      while i < |key|
        invariant 0 <= i <= |key| && node == Get(nodes, key[..i])
      {
        if node == null {
          NoEnd(key, i);
          return;
        }
        assert key[..i + 1] == Ext(key[..i], key[i]);
        node := node.next[key[i]];
        i := i + 1;
      }
      assert key[..i] == key;
    }

    /** A prefix nobody uses is followed by no used one. */
    lemma NoEnd(key: Key, i: nat)
      requires Valid() && i <= |key| && key[..i] !in nodes
      ensures key !in nodes
    {
      assert Users(stored, key) <= Users(stored, key[..i]);
      Smaller(Users(stored, key), Users(stored, key[..i]));
    }

    /** Where the pointer to the node of the prefix of length `i` is, if the prefix before it has a node. */
    ghost function PlaceOf(key: Key, i: nat): Place
      requires i <= |key|
      reads this`nodes
    {
      if i == 0 then AtRoot
      else if key[..i - 1] in nodes then AtNext(nodes[key[..i - 1]], key[i - 1])
      else Nowhere
    }

    /** Writes through a `TrieNode **`. */
    method Store(place: Place, node: TrieNode?)
      requires place.AtNext? ==> 0 <= place.c < place.node.next.Length
      modifies this`root, if place.AtNext? then {place.node.next} else {}
      ensures place.AtRoot? ==> root == node
      ensures !place.AtRoot? ==> root == old(root)
      ensures place.AtNext? ==> place.node.next[place.c] == node
      ensures place.AtNext? ==> forall c | 0 <= c < place.node.next.Length && c != place.c :: place.node.next[c] == old(place.node.next[c])
    {
      if place.AtRoot? {
        root := node;
      } else if place.AtNext? {
        place.node.next[place.c] := node;
      }
    }

    /** Takes a prefix's node out of the tree. */
    method Unlink(key: Key, ghost j: nat, prev: Place)
      requires KeyOk(key) && Tree() && j <= |key| && key[..j] in nodes && prev == PlaceOf(key, j)
      modifies this`root, this`nodes, Tables(nodes)
      ensures Tree() && nodes == old(nodes) - {key[..j]}
    {
      ghost var p := key[..j];
      forall q, c | q in nodes ensures Ext(q, c) == p <==> j > 0 && q == key[..j - 1] && c == key[j - 1] {
        ExtIs(key, j, q, c);
      }
      Store(prev, null);
      nodes := nodes - {p};
    }

    /** One prefix less: the use count goes down, and a node nobody uses is unlinked and freed. */
    method DropStep(key: Key, ghost j: nat, ghost hi: nat, node: TrieNode, prev: Place) returns (freed: bool)
      requires KeyOk(key) && Sized(key, j, hi) && j < hi && j <= |key|
      requires node == Get(nodes, key[..j]) && prev == PlaceOf(key, j)
      modifies this`root, this`nodes, node`useCount, Tables(nodes)
      ensures Sized(key, j + 1, hi) && (freed <==> old(node.useCount) == 1)
      ensures nodes == if freed then old(nodes) - {key[..j]} else old(nodes)
    {
      hide Count, Linked;
      UsesFall(stored, key, j, hi);
      ghost var p := key[..j];
      assert Uses(stored, key, j, hi, p) == node.useCount;
      node.useCount := node.useCount - 1;
      freed := node.useCount == 0;
      if freed {
        Unlink(key, j, prev);
      }
    }

    /** With no extra prefixes left the trie is as it should be. */
    lemma NothingExtra(key: Key, i: nat)
      requires Sized(key, i, i)
      ensures Valid()
    {
      assert forall p :: Uses(stored, key, i, i, p) == Count(stored, p) == Uses(stored, [], 0, 0, p);
    }

    /** Below a counted prefix the next pointer is the one of the longer prefix. */
    lemma StepDown(key: Key, j: nat)
      requires KeyOk(key) && Tree() && j < |key| && key[..j] in nodes
      ensures nodes[key[..j]].next.Length == 256 && nodes[key[..j]].next[key[j]] == Get(nodes, key[..j + 1])
      ensures nodes[key[..j]].next[0] == Get(nodes, Ext(key[..j], 0))
    {
      assert key[..j + 1] == Ext(key[..j], key[j]);
    }

    /** The trie as it was when an insertion of `key` had counted `hi` prefixes. */
    ghost predicate Rolling(key: Key, j: nat, hi: nat, node: TrieNode?, prev: Place)
      reads this`root, this`nodes, this`stored, Tables(nodes), Objects(nodes)`useCount, Objects(nodes)`data
    {
      && j <= hi && j <= |key| && Sized(key, j, hi)
      && node == Get(nodes, key[..j]) && prev == PlaceOf(key, j)
    }

    /** One turn of the rollback or the removal: the prefix of length `j` is given up. */
    method RollStep(key: Key, j: nat, ghost hi: nat, node: TrieNode, prev: Place) returns (next: TrieNode?, place: Place)
      requires KeyOk(key) && Rolling(key, j, hi, node, prev) && j < hi && j < |key|
      modifies this`root, this`nodes, node`useCount, Tables(nodes)
      ensures Rolling(key, j + 1, hi, next, place) && nodes.Keys <= old(nodes.Keys)
      ensures forall p | p in nodes :: nodes[p] == old(nodes)[p]
    {
      hide Linked, Figures;
      StepDown(key, j);
      ghost var p := key[..j + 1];
      next := node.next[key[j]];
      place := AtNext(node, key[j]);
      assert p != key[..j] && p[..j] == key[..j];
      var freed := DropStep(key, j, hi, node, prev);
      if freed {
        place := Nowhere;
      }
    }

    /** trie_insert_rollback */
    method Rollback(key: Key, ghost hi: nat)
      requires KeyOk(key) && Sized(key, 0, hi) && hi <= |key| && key[..hi] !in nodes
      modifies this`root, this`nodes, Objects(nodes)`useCount, Tables(nodes)
      ensures Valid() && nodes.Keys <= old(nodes.Keys)
      ensures forall p | p in nodes :: nodes[p] == old(nodes)[p]
    {
      hide Linked, Sized;
      assert allocated(Objects(nodes)) && allocated(Tables(nodes));
      var node, prev := root, AtRoot;
      var j := 0;
      StartRolling(key, hi);
      while node != null
        invariant Rolling(key, j, hi, node, prev) && nodes.Keys <= old(nodes.Keys)
        invariant forall p | p in nodes :: nodes[p] == old(nodes)[p]
        decreases hi - j
      {
        UsedNode(key, j, hi);
        node, prev := RollStep(key, j, hi, node, prev);
        j := j + 1;
      }
      UnusedNode(key, j, hi);
      NothingExtra(key, hi);
    }

    lemma StartRolling(key: Key, hi: nat)
      requires Sized(key, 0, hi)
      ensures Rolling(key, 0, hi, root, AtRoot)
    {
      assert key[..0] == [];
    }

    lemma UsedNode(key: Key, j: nat, hi: nat)
      requires Sized(key, j, hi) && j <= hi <= |key| && key[..j] in nodes && key[..hi] !in nodes
      ensures j < hi
    {
    }

    lemma UnusedNode(key: Key, j: nat, hi: nat)
      requires Sized(key, j, hi) && j <= hi <= |key| && key[..j] !in nodes
      ensures j == hi
    {
      assert j < hi ==> Uses(stored, key, j, hi, key[..j]) > 0;
    }

    /** Longer prefixes have no more users, so below an unlinked node every node goes. */
    lemma StaysUnlinked(key: Key, j: nat, hi: nat)
      requires Sized(key, j, hi) && 0 < j <= |key| && j < hi && key[..j - 1] !in nodes && key[..j] in nodes
      ensures nodes[key[..j]].useCount == 1
    {
      var p := key[..j - 1];
      assert Uses(stored, key, j, hi, p) == 0;
      assert Users(stored, key[..j]) <= Users(stored, p);
      Smaller(Users(stored, key[..j]), Users(stored, p));
    }

    /** One turn of the loop in trie_remove; `last` stays null once a node was unlinked. */
    method RemoveStep(key: Key, j: nat, node: TrieNode, last: Place) returns (next: TrieNode?, last': Place)
      requires KeyOk(key) && Rolling(key, j, |key| + 1, node, last) && j <= |key|
      modifies this`root, this`nodes, node`useCount, Tables(nodes)
      ensures j < |key| ==> Rolling(key, j + 1, |key| + 1, next, last')
      ensures j == |key| ==> Valid()
      ensures nodes.Keys <= old(nodes.Keys) && forall p | p in nodes :: nodes[p] == old(nodes)[p]
    {
      hide Linked, Figures;
      var c := if j < |key| then key[j] else 0;
      if j < |key| {
        StepDown(key, j);
        ghost var p := key[..j + 1];
        assert p != key[..j] && p[..j] == key[..j];
      }
      EndOfKey(key, j);
      next := node.next[c];
      if last.Nowhere? {
        StaysUnlinked(key, j, |key| + 1);
      }
      ghost var uses := node.useCount;
      var freed := DropStep(key, j, |key| + 1, node, last);
      last' := if freed then Nowhere else last;
      if last' != Nowhere {
        last' := AtNext(node, c);
      }
      if j == |key| {
        NothingExtra(key, j + 1);
      }
    }

    lemma EndOfKey(key: Key, j: nat)
      requires KeyOk(key) && Tree() && j <= |key| && key[..j] in nodes
      ensures nodes[key[..j]].next.Length == 256
    {
    }

    /** Forgetting a key: until the counts are lowered it still counts at all its prefixes. */
    method Forget(key: Key, node: TrieNode)
      requires KeyOk(key) && Valid() && key in stored && node == Get(nodes, key)
      modifies this`stored, node`data
      ensures stored == old(stored) - {key}
      ensures Sized(key, 0, |key| + 1)
    {
      ForgetUses(stored, key);
      hide Linked, Uses;
      assert allocated(Tables(nodes));
      node.data := None;
      stored := stored - {key};
      assert Tree();
    }

    /** trie_remove */
    method Remove(key: Key) returns (r: bool)
      requires KeyOk(key) && Valid()
      modifies this, Objects(nodes), Tables(nodes)
      ensures Valid() && stored == old(stored) - {key} && (r <==> key in old(stored))
      ensures nodes.Keys <= old(nodes.Keys) && forall p | p in nodes :: nodes[p] == old(nodes)[p]
    {
      hide Linked, Sized, Uses, Rolling;
      assert allocated(Objects(nodes)) && allocated(Tables(nodes));
      var end := FindEnd(key);
      HasData(key);
      if end == null || end.data.None? {
        assert stored == stored - {key};
        return false;
      }
      Forget(key, end);
      StartRolling(key, |key| + 1);
      var node, last := root, AtRoot;
      var j := 0;
      while true
        invariant 0 <= j <= |key| && Rolling(key, j, |key| + 1, node, last)
        invariant stored == old(stored) - {key}
        invariant nodes.Keys <= old(nodes.Keys) && forall p | p in nodes :: nodes[p] == old(nodes)[p]
        decreases |key| - j
      {
        CountedNode(key, j, node, last);
        node, last := RemoveStep(key, j, node, last);
        if j == |key| {
          break;
        }
        j := j + 1;
      }
      r := true;
    }

    lemma HasData(key: Key)
      requires KeyOk(key) && Valid()
      ensures key in stored <==> key in nodes && nodes[key].data.Some?
      ensures key in stored ==> nodes[key].data.value == stored[key]
    {
      if key in stored {
        CountPositive(stored, key, |key|);
        assert key[..|key|] == key;
      }
    }

    lemma CountedNode(key: Key, j: nat, node: TrieNode?, last: Place)
      requires Rolling(key, j, |key| + 1, node, last) && j <= |key|
      ensures node != null && node in Objects(nodes)
    {
      assert Uses(stored, key, j, |key| + 1, key[..j]) > 0;
    }

    /** trie_lookup */
    method Lookup(key: Key) returns (r: Option<Value>)
      requires KeyOk(key) && Valid()
      ensures r == DataOf(stored, key)
    {
      HasData(key);
      var node := FindEnd(key);
      r := if node != null then node.data else None;
    }

    /** Reads through a `TrieNode **`. */
    method Load(place: Place) returns (node: TrieNode?)
      requires !place.Nowhere? && (place.AtNext? ==> 0 <= place.c < place.node.next.Length)
      ensures place.AtRoot? ==> node == root
      ensures place.AtNext? ==> node == place.node.next[place.c]
    {
      node := if place.AtRoot? then root else place.node.next[place.c];
    }

    /** A new node for the prefix of length `i`. */
    method Link(key: Key, ghost i: nat, rover: Place, node: TrieNode)
      requires KeyOk(key) && Tree() && i <= |key| && key[..i] !in nodes
      requires rover == PlaceOf(key, i) && rover != Nowhere
      requires forall p | p in nodes :: nodes[p] != node && nodes[p].next != node.next
      requires node.next.Length == 256 && forall c | 0 <= c < 256 :: node.next[c] == null && Ext(key[..i], c) !in nodes
      modifies this`root, this`nodes, Tables(nodes)
      ensures Tree() && nodes == old(nodes)[key[..i] := node]
    {
      ghost var p := key[..i];
      forall q, c | q in nodes || q == p ensures Ext(q, c) == p <==> i > 0 && q == key[..i - 1] && c == key[i - 1] {
        ExtIs(key, i, q, c);
      }
      Store(rover, node);
      nodes := nodes[p := node];
    }

    /** A prefix without a node is new to the trie, and so are the prefixes that extend it. */
    lemma NewPrefix(key: Key, i: nat)
      requires KeyOk(key) && Sized(key, 0, i) && i <= |key| && key[..i] !in nodes
      ensures DataOf(stored, key[..i]) == None && Uses(stored, key, 0, i, key[..i]) == 0
      ensures forall c | 0 <= c < 256 :: Ext(key[..i], c) !in nodes
    {
      var p := key[..i];
      assert Uses(stored, key, 0, i, p) == 0;
      assert p in stored <==> p in Users(stored, p);
      forall c | 0 <= c < 256 ensures Ext(p, c) !in nodes {
        assert Users(stored, Ext(p, c)) <= Users(stored, p) by {
          assert forall k | k in stored && Ext(p, c) <= k :: p <= k;
        }
        Smaller(Users(stored, Ext(p, c)), Users(stored, p));
        assert Uses(stored, key, 0, i, Ext(p, c)) == 0;
      }
    }

    /** All is right but that the prefix of length `i` has a node that does not count the key yet. */
    ghost predicate Grown(key: Key, i: nat)
      requires i <= |key|
      reads this`root, this`nodes, this`stored, Tables(nodes), Objects(nodes)`useCount, Objects(nodes)`data
    {
      && Tree() && (forall k | k in stored :: KeyOk(k))
      && (forall p :: p in nodes <==> Uses(stored, key, 0, i, p) > 0 || p == key[..i])
      && (forall p | p in nodes ::
            nodes[p].useCount == Uses(stored, key, 0, i, p) && nodes[p].data == DataOf(stored, p))
    }

    /** A new node has the count and data of a prefix without a node. */
    lemma NewNode(key: Key, i: nat, before: Nodes, node: TrieNode)
      requires i <= |key| && Tree() && nodes == before[key[..i] := node] && key[..i] !in before
      requires forall k | k in stored :: KeyOk(k)
      requires forall p :: p in before <==> Uses(stored, key, 0, i, p) > 0
      requires forall p | p in before ::
                 before[p].useCount == Uses(stored, key, 0, i, p) && before[p].data == DataOf(stored, p)
      requires node.useCount == 0 == Uses(stored, key, 0, i, key[..i]) && node.data == None == DataOf(stored, key[..i])
      ensures Grown(key, i)
    {
    }

    /** `calloc` and linking in. */
    method Make(key: Key, ghost i: nat, rover: Place) returns (node: TrieNode?, ghost refused: bool)
      requires KeyOk(key) && Sized(key, 0, i) && i <= |key| && rover == PlaceOf(key, i)
      requires rover != Nowhere && key[..i] !in nodes
      modifies this`root, this`nodes, Tables(nodes)
      ensures node == null <==> refused
      ensures node == null ==> Sized(key, 0, i) && nodes == old(nodes)
      ensures node != null ==> Grown(key, i) && nodes == old(nodes)[key[..i] := node] && fresh(node) && fresh(node.next)
    {
      hide Linked, Count, Uses, DataOf, Separate, Ext, Grown;
      assert allocated(Objects(nodes)) && allocated(Tables(nodes));
      node := null;
      var ok := Malloc();
      refused := !ok;
      if ok {
        NewPrefix(key, i);
        ghost var before := nodes;
        node := new TrieNode();
        Fresh(node);
        Link(key, i, rover, node);
        NewNode(key, i, before, node);
      }
    }

    lemma Fresh(node: TrieNode)
      requires node !in Objects(nodes) && node.next !in Tables(nodes)
      ensures forall p | p in nodes :: nodes[p] != node && nodes[p].next != node.next
    {
    }

    /** `++node->use_count` */
    method Bump(key: Key, ghost i: nat, node: TrieNode)
      requires i <= |key| && Grown(key, i) && node == Get(nodes, key[..i])
      modifies node`useCount
      ensures Sized(key, 0, i + 1)
    {
      hide Linked, Count;
      assert allocated(Tables(nodes));
      UsesRise(stored, key, i);
      node.useCount := node.useCount + 1;
    }

    /** One prefix more: its node is found or made, and counts the key. */
    method GrowStep(key: Key, ghost i: nat, rover: Place) returns (node: TrieNode?, ghost refused: bool)
      requires KeyOk(key) && Sized(key, 0, i) && i <= |key| && rover == PlaceOf(key, i)
      requires rover != Nowhere
      modifies this`root, this`nodes, Objects(nodes)`useCount, Tables(nodes)
      ensures node == null <==> refused
      ensures node == null ==> Sized(key, 0, i) && nodes == old(nodes) && key[..i] !in nodes
      ensures node != null ==> Sized(key, 0, i + 1) && node == Get(nodes, key[..i])
      ensures node != null ==> nodes == old(nodes)[key[..i] := node]
      ensures node != null ==> if key[..i] in old(nodes) then node == old(nodes)[key[..i]] else fresh(node) && fresh(node.next)
    {
      hide Linked, Count;
      assert allocated(Objects(nodes)) && allocated(Tables(nodes));
      RoverHolds(key, i, rover);
      refused := false;
      node := Load(rover);
      if node == null {
        node, refused := Make(key, i, rover);
      }
      if node != null {
        Bump(key, i, node);
      }
    }

    lemma RoverHolds(key: Key, i: nat, rover: Place)
      requires KeyOk(key) && Tree() && i <= |key| && rover == PlaceOf(key, i) && rover != Nowhere
      ensures rover.AtNext? ==> 0 <= rover.c < rover.node.next.Length && rover.node.next[rover.c] == Get(nodes, key[..i])
      ensures rover.AtRoot? ==> root == Get(nodes, key[..i])
    {
      if i > 0 {
        StepDown(key, i - 1);
      } else {
        assert key[..0] == [];
      }
    }

    /** An insertion that has counted the prefixes shorter than `i`. */
    ghost predicate Growing(key: Key, i: nat, rover: Place)
      reads this`root, this`nodes, this`stored, Tables(nodes), Objects(nodes)`useCount, Objects(nodes)`data
    {
      i <= |key| && Sized(key, 0, i) && rover == PlaceOf(key, i) && rover != Nowhere
    }

    lemma StartGrowing(key: Key)
      requires Valid()
      ensures Growing(key, 0, AtRoot)
    {
      assert forall p :: Uses(stored, key, 0, 0, p) == Uses(stored, [], 0, 0, p);
    }

    lemma RoverOk(key: Key, i: nat, rover: Place)
      requires Growing(key, i, rover)
      ensures i <= |key| && Sized(key, 0, i) && rover == PlaceOf(key, i) && rover != Nowhere
    {
    }

    /** The pointer after a counted prefix's node. */
    lemma NextRover(key: Key, i: nat, node: TrieNode)
      requires i < |key| && Sized(key, 0, i + 1) && node == Get(nodes, key[..i])
      ensures Growing(key, i + 1, AtNext(node, key[i]))
    {
      assert key[..i + 1][..i] == key[..i];
    }

    /** A key that counts at all its prefixes is stored by setting its node's data. */
    method Finish(key: Key, value: Value, node: TrieNode)
      requires KeyOk(key) && key !in stored && Sized(key, 0, |key| + 1) && node == Get(nodes, key)
      modifies this`stored, node`data
      ensures Valid() && stored == old(stored)[key := value]
    {
      hide Linked, Uses;
      InsertedUses(stored, key, value, stored[key := value]);
      assert allocated(Tables(nodes));
      node.data := Some(value);
      stored := stored[key := value];
      assert Tree();
    }

    method ReplaceData(key: Key, value: Value, node: TrieNode)
      requires KeyOk(key) && Valid() && key in stored && node == Get(nodes, key)
      modifies this`stored, node`data
      ensures Valid() && stored == old(stored)[key := value]
    {
      hide Linked, Uses;
      ReplacedUses(stored, key, value, stored[key := value]);
      assert allocated(Tables(nodes));
      node.data := Some(value);
      stored := stored[key := value];
      assert Tree();
    }

    lemma AllCovered()
      requires Valid()
      ensures Covered(nodes, stored)
    {
      assert forall p :: Uses(stored, [], 0, 0, p) == Count(stored, p);
    }

    /** After a failed allocation the nodes are those of before the insertion. */
    method GiveUp(key: Key, ghost hi: nat, ghost before: Nodes)
      requires KeyOk(key) && Sized(key, 0, hi) && hi <= |key| && key[..hi] !in nodes
      requires Covered(before, stored) && Kept(before, nodes)
      modifies this`root, this`nodes, Objects(nodes)`useCount, Tables(nodes)
      ensures Valid() && nodes == before
    {
      hide Linked, Sized, Uses, Covered;
      Rollback(key, hi);
      AllCovered();
      SameNodes(before, old(nodes), nodes, stored);
    }

    /** The descent of trie_insert, which counts the key at its prefixes. */
    method InsertNew(key: Key, value: Value) returns (ok: bool, ghost refused: bool)
      requires KeyOk(key) && Valid() && key !in stored
      modifies this, Objects(nodes), Tables(nodes)
      ensures Valid() && (ok <==> !refused)
      ensures ok ==> stored == old(stored)[key := value] && Kept(old(nodes), nodes)
      ensures !ok ==> stored == old(stored) && nodes == old(nodes)
    {
      hide Linked, Sized, Uses, DataOf, Covered, Growing;
      assert allocated(Objects(nodes)) && allocated(Tables(nodes));
      AllCovered();
      StartGrowing(key);
      var rover := AtRoot;
      var i := 0;
      while true
        invariant Growing(key, i, rover) && stored == old(stored) && Kept(old(nodes), nodes)
        invariant forall p | p in nodes && p !in old(nodes) :: fresh(nodes[p]) && fresh(nodes[p].next)
        decreases |key| - i
      {
        RoverOk(key, i, rover);
        ghost var was := nodes;
        var node;
        node, refused := GrowStep(key, i, rover);
        if node == null {
          GiveUp(key, i, old(nodes));
          return false, true;
        }
        KeptWith(old(nodes), was, key[..i], node, nodes);
        if i == |key| {
          assert key[..i] == key;
          Finish(key, value, node);
          break;
        }
        NextRover(key, i, node);
        rover := AtNext(node, key[i]);
        i := i + 1;
      }
      ok, refused := true, false;
    }

    /** trie_insert; `None` is TRIE_NULL. */
    method Insert(key: Key, value: Option<Value>) returns (ok: bool, ghost refused: bool)
      requires KeyOk(key) && Valid()
      modifies this, Objects(nodes), Tables(nodes)
      ensures Valid() && Kept(old(nodes), nodes)
      ensures (ok <==> value.Some? && !refused) && (refused ==> key !in old(stored))
      ensures ok ==> stored == old(stored)[key := value.value]
      ensures !ok ==> stored == old(stored) && nodes == old(nodes)
    {
      hide Linked, Sized, Uses, DataOf;
      if value.None? {
        return false, false;
      }
      HasData(key);
      var node := FindEnd(key);
      if node != null && node.data.Some? {
        ReplaceData(key, value.value, node);
        ok, refused := true, false;
      } else {
        ok, refused := InsertNew(key, value.value);
      }
    }
  }

  lemma Smaller<T>(a: set<T>, b: set<T>)
    requires a <= b
    ensures |a| <= |b|
  {
    assert b == a + (b - a);
  }
}
