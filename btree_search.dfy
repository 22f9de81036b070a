/** Looking a key up (btree_contains and _build_route, 09-btree/btree.c): the
    route goes down from the root through edge index + 1 of every node that
    does not hold the key, for depth levels. */
module BTreeSearch {
  import opened BTreeNode
  import opened BTreeShape

  /** What the route finds: the key, no key, or a NULL pointer it follows
      (edges of a leaf, a NULL edge). */
  datatype Probe = Present | Absent | Crash

  /** What a tree operation leaves: the new root and depth, an exit(-1), or a
      NULL pointer dereference. */
  datatype Outcome = Done(root: Tree, depth: int) | Aborted | Crashed

  /** The route from node t with h levels still to go, the last of them
      included: an exact match on the way ends it early. */
  function Route(t: Tree, key: int, h: int): Probe
    decreases t
  {
    if !Framed(t) then Crash
    else if FindKeyIndex(t.keys, key).exact then Present
    else if h <= 1 then Absent
    else if t.isLeaf then Crash
    else Route(t.edges[FindKeyIndex(t.keys, key).index + 1], key, h - 1)
  }

  /** x strictly between the keys ahead of position c and the keys from c on. */
  predicate Between(keys: seq<int>, x: int, c: nat)
  {
    c <= |keys| &&
    (forall j :: 0 <= j < c ==> keys[j] < x) &&
    (forall j :: c <= j < |keys| ==> x < keys[j])
  }

  /** A key strictly between the keys ahead of c and those from c on is not
      in the node, and _find_key_index sends it to edge c. */
  lemma FindBetween(keys: seq<int>, x: int, c: nat)
    requires Between(keys, x, c)
    ensures FindKeyIndex(keys, x) == Found(c - 1, false)
  {
    var i := LastAtMost(keys, x, |keys|);
    assert c > 0 ==> keys[c - 1] < x;
    assert i >= 0 ==> keys[i] <= x;
  }

  /** On sorted keys, a key that is not in the node is between the keys
      around the edge _find_key_index picks. */
  lemma BetweenFound(keys: seq<int>, x: int)
    requires Sorted(keys) && x !in keys
    ensures Between(keys, x, FindKeyIndex(keys, x).index + 1)
  {
    FindKeyIndexSorted(keys, x);
    var i := FindKeyIndex(keys, x).index;
    if i >= 0 {
      forall j | 0 <= j <= i ensures keys[j] < x {
        if j < i {
          assert keys[j] < keys[i];
        }
      }
    }
  }

  /** The keys of a sorted tree's root are sorted. */
  lemma NodeKeysSorted(n: Tree)
    requires Framed(n) && Sorted(Flatten(n))
    ensures Sorted(n.keys)
  {
    if !n.isLeaf {
      forall i, j | 0 <= i < j < |n.keys| ensures n.keys[i] < n.keys[j] {
        Around(n, i + 1);
        KeysAround(n, i + 1);
        SortedParts(Before(n, i + 1), Flatten(n.edges[i + 1]), After(n, i + 1));
      }
    }
  }

  /** The three parts of a sorted concatenation are sorted and in order. */
  lemma SortedParts(a: seq<int>, m: seq<int>, b: seq<int>)
    requires Sorted(a + m + b)
    ensures Sorted(a) && Sorted(m) && Sorted(b)
    ensures forall x, y :: x in a && y in m ==> x < y
    ensures forall x, y :: x in m && y in b ==> x < y
    ensures forall x, y :: x in a && y in b ==> x < y
  {
    SortedSplit(a + m, b);
    SortedSplit(a, m);
    assert forall x :: x in a ==> x in a + m;
    assert forall x :: x in m ==> x in a + m;
  }

  /** The edge _find_key_index picks for a key that is not in the node holds
      every key of the tree between the node's keys around it: the keys ahead
      of it are below the key and those behind it above. */
  lemma Routing(n: Tree, key: int)
    requires Framed(n) && !n.isLeaf && Sorted(Flatten(n)) && key !in n.keys
    ensures var c := FindKeyIndex(n.keys, key).index + 1;
      Between(n.keys, key, c) && Sorted(Flatten(n.edges[c])) &&
      (forall x :: x in Before(n, c) ==> x < key) && (forall x :: x in After(n, c) ==> key < x) &&
      (key in Flatten(n) <==> key in Flatten(n.edges[c]))
  {
    NodeKeysSorted(n);
    BetweenFound(n.keys, key);
    var c := FindKeyIndex(n.keys, key).index + 1;
    Around(n, c);
    var b, a := Before(n, c), After(n, c);
    SortedParts(b, Flatten(n.edges[c]), a);
    if c > 0 {
      assert b[|b| - 1] == n.keys[c - 1];
      SortedLast(b);
    }
    if c < |n.keys| {
      assert a[0] == n.keys[c];
    }
    assert key in Flatten(n) <==> key in b || key in Flatten(n.edges[c]) || key in a;
  }

  /** On a well-shaped sorted tree the route never crashes and finds the key
      exactly when the tree holds it. */
  lemma {:induction false} RouteFinds(t: Tree, key: int, h: nat)
    requires Shape(t, h) && Sorted(Flatten(t))
    ensures Route(t, key, h) != Crash
    ensures Route(t, key, h) == Present <==> key in Flatten(t)
    decreases t
  {
    KeysInFlatten(t);
    if !FindKeyIndex(t.keys, key).exact && !t.isLeaf {
      Routing(t, key);
      RouteFinds(t.edges[FindKeyIndex(t.keys, key).index + 1], key, h - 1);
    }
  }
}
