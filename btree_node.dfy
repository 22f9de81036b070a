/** The node operations of the B-tree (09-btree/btree.c): finding a key's
    position in a node, inserting and deleting a key in a node, splitting a
    node at a key and joining two nodes around a middle key. A node is a value
    here: the source mutates a node in place, and the tree-level operations
    put the changed node back in its parent. */
module BTreeNode {
  /** A node (keys_size keys, is_leaf, keys_size + 1 edges when it is not a
      leaf) or Nil, the NULL edge. A leaf has no edges array. */
  datatype Tree = Nil | Node(keys: seq<int>, isLeaf: bool, edges: seq<Tree>)

  /** Strictly increasing. */
  predicate Sorted(s: seq<int>)
  {
    forall i, j :: 0 <= i < j < |s| ==> s[i] < s[j]
  }

  /** A node whose edges array has the size the source allocates for it. */
  predicate Framed(n: Tree)
  {
    n.Node? && (if n.isLeaf then n.edges == [] else |n.edges| == |n.keys| + 1)
  }

  // ---------------------------------------------------------------------------
  // _find_key_index

  /** index and is_exact_match. */
  datatype Found = Found(index: int, exact: bool)

  /** The first position of key in keys, or |keys|. */
  function FirstIndexOf(keys: seq<int>, key: int): (j: nat)
    ensures j <= |keys|
    ensures forall i :: 0 <= i < j ==> keys[i] != key
    ensures j < |keys| ==> keys[j] == key
  {
    if keys == [] then 0 else if keys[0] == key then 0 else 1 + FirstIndexOf(keys[1..], key)
  }

  /** The last position below n whose key is at most key, or -1. */
  function LastAtMost(keys: seq<int>, key: int, n: nat): (i: int)
    requires n <= |keys|
    ensures -1 <= i < n
    ensures i >= 0 ==> keys[i] <= key
    ensures forall j :: i < j < n ==> keys[j] > key
  {
    if n == 0 then -1 else if keys[n - 1] <= key then n - 1 else LastAtMost(keys, key, n - 1)
  }

  /** The scan stops at the first exact match; without one, the result is
      the last key not above key. */
  function FindKeyIndex(keys: seq<int>, key: int): (r: Found)
    ensures -1 <= r.index < |keys|
    ensures r.exact <==> key in keys
    ensures r.exact ==> 0 <= r.index && keys[r.index] == key
  {
    var j := FirstIndexOf(keys, key);
    if j < |keys| then Found(j, true) else Found(LastAtMost(keys, key, |keys|), false)
  }

  method FindKey(keys: seq<int>, key: int) returns (r: Found)
    ensures r == FindKeyIndex(keys, key)
  {
    r := Found(-1, false);
    var i := 0;
    while i < |keys|
      invariant i <= |keys|
      invariant forall j :: 0 <= j < i ==> keys[j] != key
      invariant r == Found(LastAtMost(keys, key, i), false)
    {
      if keys[i] <= key {
        r := Found(i, false);
        if keys[i] == key {
          r := Found(i, true);
          break;
        }
      }
      i := i + 1;
    }
  }

  /** On sorted keys, the index is the largest position whose key is at most
      key (-1 if none), and the match is exact exactly when key is present. */
  lemma FindKeyIndexSorted(keys: seq<int>, key: int)
    requires Sorted(keys)
    ensures var r := FindKeyIndex(keys, key);
      -1 <= r.index < |keys| &&
      (r.index >= 0 ==> keys[r.index] <= key) &&
      (forall j :: r.index < j < |keys| ==> key < keys[j]) &&
      (r.exact <==> key in keys) &&
      (r.exact ==> keys[r.index] == key)
  {
    var j := FirstIndexOf(keys, key);
    if j < |keys| {
      forall t | j < t < |keys| ensures key < keys[t] {
        assert keys[j] < keys[t];
      }
    }
  }

  // ---------------------------------------------------------------------------
  // _insert_key_into_node

  /** The changed node, the index the key went to, and the edge that was at
      that index (the orphan its caller replaces). */
  datatype Inserted = Inserted(node: Tree, index: int, orphan: Tree)

  /** The key goes right after the find index; in an inner node the two edges
      around it are left NULL for the caller, and the edges after it move up. */
  function InsertKey(n: Tree, key: int): (r: Inserted)
    requires Framed(n) && !FindKeyIndex(n.keys, key).exact
    ensures Framed(r.node) && r.node.isLeaf == n.isLeaf && 0 <= r.index <= |n.keys|
    ensures |r.node.keys| == |n.keys| + 1
  {
    var i := FindKeyIndex(n.keys, key).index + 1;
    var keys := n.keys[..i] + [key] + n.keys[i..];
    if n.isLeaf then Inserted(Node(keys, true, []), i, Nil)
    else Inserted(Node(keys, false, n.edges[..i] + [Nil, Nil] + n.edges[i + 1..]), i, n.edges[i])
  }

  method InsertKeyIntoNode(n: Tree, key: int) returns (r: Inserted)
    requires Framed(n) && !FindKeyIndex(n.keys, key).exact
    ensures r == InsertKey(n, key)
  {
    var f := FindKey(n.keys, key);
    var idx := f.index + 1;
    var keys := KeysWith(n.keys, idx, key);
    if n.isLeaf {
      return Inserted(Node(keys, true, []), idx, Nil);
    }
    var edges := EdgesWithGap(n.edges, idx);
    return Inserted(Node(keys, false, edges), idx, n.edges[idx]);
  }

  /** The new_keys loop. */
  method KeysWith(keys: seq<int>, idx: nat, key: int) returns (r: seq<int>)
    requires idx <= |keys|
    ensures r == keys[..idx] + [key] + keys[idx..]
  {
    var size := |keys| + 1;
    var newKeys := new int[size];
    for i := 0 to size
      invariant forall j :: 0 <= j < i ==> newKeys[j] == if j == idx then key else keys[if j > idx then j - 1 else j]
    {
      newKeys[i] := if i == idx then key else keys[if i > idx then i - 1 else i];
    }
    r := newKeys[..];
    forall j | 0 <= j < size ensures r[j] == (keys[..idx] + [key] + keys[idx..])[j] {
    }
  }

  /** The new_edges loop: NULL on both sides of the new key. */
  method EdgesWithGap(edges: seq<Tree>, idx: nat) returns (r: seq<Tree>)
    requires idx < |edges|
    ensures r == edges[..idx] + [Nil, Nil] + edges[idx + 1..]
  {
    var size := |edges| + 1;
    var newEdges := new Tree[size];
    for i := 0 to size
      invariant forall j :: 0 <= j < i ==> newEdges[j] == if j == idx || j == idx + 1 then Nil else edges[if j > idx then j - 1 else j]
    {
      if i == idx || i == idx + 1 {
        newEdges[i] := Nil;
      } else {
        newEdges[i] := edges[if i > idx then i - 1 else i];
      }
    }
    r := newEdges[..];
    forall j | 0 <= j < size ensures r[j] == (edges[..idx] + [Nil, Nil] + edges[idx + 1..])[j] {
    }
  }

  /** Putting a key strictly between its neighbours keeps a sequence sorted. */
  lemma SortedInsertAt(s: seq<int>, i: nat, key: int)
    requires Sorted(s) && i <= |s|
    requires i > 0 ==> s[i - 1] < key
    requires i < |s| ==> key < s[i]
    ensures Sorted(s[..i] + [key] + s[i..])
  {
    var ks := s[..i] + [key] + s[i..];
    forall a, b | 0 <= a < b < |ks| ensures ks[a] < ks[b] {
      if b < i {
        assert ks[a] == s[a] && ks[b] == s[b];
      } else if b == i {
        assert ks[a] == s[a] && s[a] <= s[i - 1];
      } else if a == i {
        assert ks[b] == s[b - 1] && s[i] <= s[b - 1];
      } else if a < i {
        assert ks[a] == s[a] && ks[b] == s[b - 1];
      } else {
        assert ks[a] == s[a - 1] && ks[b] == s[b - 1];
      }
    }
  }

  /** Inserting into a sorted node keeps it sorted, adds exactly the key and
      puts it at the returned index. */
  lemma InsertKeySorted(n: Tree, key: int)
    requires Framed(n) && Sorted(n.keys) && !FindKeyIndex(n.keys, key).exact
    ensures var r := InsertKey(n, key);
      Sorted(r.node.keys) && |r.node.keys| == |n.keys| + 1 && r.node.keys[r.index] == key &&
      (forall x :: x in r.node.keys <==> x in n.keys || x == key) &&
      Framed(r.node)
  {
    FindKeyIndexSorted(n.keys, key);
    var i := FindKeyIndex(n.keys, key).index + 1;
    if i > 0 {
      assert n.keys[i - 1] != key;
    }
    SortedInsertAt(n.keys, i, key);
    InsertAtMembers(n.keys, i, key);
  }

  /** The values of s with key put at position i are those of s and key. */
  lemma InsertAtMembers(s: seq<int>, i: nat, key: int)
    requires i <= |s|
    ensures forall x :: x in s[..i] + [key] + s[i..] <==> x in s || x == key
  {
    assert s == s[..i] + s[i..];
  }

  /** In an inner node the orphan is the old edge at the index; the new node
      has NULL edges on both sides of the key and the other edges in order. */
  lemma InsertKeyEdges(n: Tree, key: int)
    requires Framed(n) && !n.isLeaf && !FindKeyIndex(n.keys, key).exact
    ensures var r := InsertKey(n, key); var i := r.index;
      r.orphan == n.edges[i] && r.node.edges[i] == Nil && r.node.edges[i + 1] == Nil &&
      (forall j :: 0 <= j < i ==> r.node.edges[j] == n.edges[j]) &&
      (forall j :: i + 1 < j < |r.node.edges| ==> r.node.edges[j] == n.edges[j - 1])
  {
  }

  // ---------------------------------------------------------------------------
  // _delete_key_from_node

  /** The deleted key, its former index and, in an inner node, the two edges
      around it. */
  datatype Deleted = Deleted(node: Tree, key: int, formerIndex: int, leftOrphan: Tree, rightOrphan: Tree)

  /** The keys after the deleted one move down; in an inner node its left
      edge becomes NULL and the edges after its right edge move down. */
  function DeleteKey(n: Tree, key: int): (r: Deleted)
    requires Framed(n) && FindKeyIndex(n.keys, key).exact
    ensures Framed(r.node) && r.node.isLeaf == n.isLeaf && 0 <= r.formerIndex < |n.keys|
    ensures |r.node.keys| == |n.keys| - 1
  {
    var i := FindKeyIndex(n.keys, key).index;
    var keys := n.keys[..i] + n.keys[i + 1..];
    if n.isLeaf then Deleted(Node(keys, true, []), key, i, Nil, Nil)
    else Deleted(Node(keys, false, n.edges[..i] + [Nil] + n.edges[i + 2..]), key, i, n.edges[i], n.edges[i + 1])
  }

  method DeleteKeyFromNode(n: Tree, key: int) returns (r: Deleted)
    requires Framed(n) && FindKeyIndex(n.keys, key).exact
    ensures r == DeleteKey(n, key)
  {
    var f := FindKey(n.keys, key);
    var idx := f.index;
    var keys := ShiftDown(n.keys, idx);
    if n.isLeaf {
      return Deleted(Node(keys, true, []), key, idx, Nil, Nil);
    }
    var edges := ShiftDown(n.edges[idx := Nil], idx + 1);
    assert edges == n.edges[..idx] + [Nil] + n.edges[idx + 2..];
    return Deleted(Node(keys, false, edges), key, idx, n.edges[idx], n.edges[idx + 1]);
  }

  /** The shifting loops: each element after position idx moves one place
      down over it, and the array is then read one shorter. */
  method ShiftDown<T>(s: seq<T>, idx: nat) returns (r: seq<T>)
    requires idx < |s|
    ensures r == s[..idx] + s[idx + 1..]
  {
    var a := s;
    for i := idx to |s| - 1
      invariant |a| == |s|
      invariant forall j :: 0 <= j < idx ==> a[j] == s[j]
      invariant forall j :: idx <= j < i ==> a[j] == s[j + 1]
      invariant forall j :: i <= j < |a| ==> a[j] == s[j]
    {
      a := a[i := a[i + 1]];
    }
    r := a[..|s| - 1];
    assert forall j :: 0 <= j < |r| ==> r[j] == (s[..idx] + s[idx + 1..])[j];
  }

  /** Removing position i of a sorted sequence keeps it sorted and removes
      exactly the value s[i]. */
  lemma SortedRemoveAt(s: seq<int>, i: nat)
    requires Sorted(s) && i < |s|
    ensures var r := s[..i] + s[i + 1..];
      Sorted(r) && forall x :: x in r <==> x in s && x != s[i]
  {
    var r := s[..i] + s[i + 1..];
    forall a, b | 0 <= a < b < |r| ensures r[a] < r[b] {
      if b < i {
        assert r[a] == s[a] && r[b] == s[b];
      } else if a < i {
        assert r[a] == s[a] && r[b] == s[b + 1];
      } else {
        assert r[a] == s[a + 1] && r[b] == s[b + 1];
      }
    }
    forall t | 0 <= t < |r| ensures r[t] != s[i] {
      if t < i {
        assert r[t] == s[t] < s[i];
      } else {
        assert r[t] == s[t + 1] && s[i] < s[t + 1];
      }
    }
    assert s == s[..i] + [s[i]] + s[i + 1..];
    assert forall x :: x in s <==> x in s[..i] || x == s[i] || x in s[i + 1..];
  }

  /** Deleting from a sorted node keeps it sorted and removes exactly the key. */
  lemma DeleteKeySorted(n: Tree, key: int)
    requires Framed(n) && Sorted(n.keys) && FindKeyIndex(n.keys, key).exact
    ensures var r := DeleteKey(n, key);
      Sorted(r.node.keys) && |r.node.keys| == |n.keys| - 1 &&
      n.keys[r.formerIndex] == key &&
      (forall x :: x in r.node.keys <==> x in n.keys && x != key) &&
      Framed(r.node)
  {
    var i := FindKeyIndex(n.keys, key).index;
    SortedRemoveAt(n.keys, i);
  }

  // ---------------------------------------------------------------------------
  // _split_node_by_key and _join_nodes

  /** left, right and middle_key. */
  datatype Pair = Pair(left: Tree, right: Tree, middle: int)

  /** Splitting is refused (exit(-1) in the source) unless the key is present
      at an inner position of the node. */
  predicate SplitOk(n: Tree, key: int)
  {
    Framed(n) && FindKeyIndex(n.keys, key).exact && 0 < FindKeyIndex(n.keys, key).index < |n.keys| - 1
  }

  /** The keys before the split key (at index i) go left and the keys after
      it right; an inner node's left half keeps edges 0..i and its right half
      edges i+1.. */
  function SplitNode(n: Tree, key: int): (p: Pair)
    requires SplitOk(n, key)
    ensures Framed(p.left) && Framed(p.right) && p.left.isLeaf == n.isLeaf && p.right.isLeaf == n.isLeaf
    ensures |p.left.keys| + 1 + |p.right.keys| == |n.keys|
  {
    var i := FindKeyIndex(n.keys, key).index;
    if n.isLeaf then Pair(Node(n.keys[..i], true, []), Node(n.keys[i + 1..], true, []), key)
    else Pair(Node(n.keys[..i], false, n.edges[..i + 1]), Node(n.keys[i + 1..], false, n.edges[i + 1..]), key)
  }

  /** Joining is refused (exit(-1)) for a leaf and an inner node. */
  predicate JoinOk(p: Pair)
  {
    Framed(p.left) && Framed(p.right) && p.left.isLeaf == p.right.isLeaf
  }

  function JoinNodes(p: Pair): (n: Tree)
    requires JoinOk(p)
    ensures Framed(n) && n.isLeaf == p.left.isLeaf
    ensures |n.keys| == |p.left.keys| + 1 + |p.right.keys|
  {
    var keys := p.left.keys + [p.middle] + p.right.keys;
    if p.left.isLeaf then Node(keys, true, []) else Node(keys, false, p.left.edges + p.right.edges)
  }

  /** A value sits at one position only of a strictly increasing sequence. */
  lemma SortedUnique(s: seq<int>, a: nat, b: nat)
    requires Sorted(s) && a < |s| && b < |s| && s[a] == s[b]
    ensures a == b
  {
  }

  /** Joining the halves of a split gives back the node. */
  lemma JoinSplit(n: Tree, key: int)
    requires SplitOk(n, key)
    ensures JoinOk(SplitNode(n, key)) && JoinNodes(SplitNode(n, key)) == n
  {
    var i := FindKeyIndex(n.keys, key).index;
    assert n.keys == n.keys[..i] + [key] + n.keys[i + 1..];
    if !n.isLeaf {
      assert n.edges == n.edges[..i + 1] + n.edges[i + 1..];
    }
  }

  /** Splitting a sorted join at its middle key gives back the two nodes, as
      long as both are non-empty (the split refuses an edge position). */
  lemma SplitJoin(p: Pair)
    requires JoinOk(p) && Sorted(JoinNodes(p).keys) && |p.left.keys| > 0 && |p.right.keys| > 0
    ensures SplitOk(JoinNodes(p), p.middle) && SplitNode(JoinNodes(p), p.middle) == p
  {
    var n := JoinNodes(p);
    var i := |p.left.keys|;
    assert n.keys[i] == p.middle;
    FindKeyIndexSorted(n.keys, p.middle);
    var f := FindKeyIndex(n.keys, p.middle);
    SortedUnique(n.keys, f.index, i);
    assert n.keys[..i] == p.left.keys && n.keys[i + 1..] == p.right.keys;
    if !n.isLeaf {
      assert n.edges[..i + 1] == p.left.edges && n.edges[i + 1..] == p.right.edges;
    }
  }
}
