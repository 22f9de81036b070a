/** Insertion (btree_insert, 09-btree/btree.c): the key goes into the node at
    the end of its route; a full node (2L - 1 keys) is split at keys[L] and
    passes its middle key and two halves up to its parent, and a split root
    gets a new one-key root above it. */
module BTreeInsert {
  import opened BTreeNode
  import opened BTreeShape
  import opened BTreeSearch

  /** What one level of the upward loop leaves: the node with the key in it,
      the two halves and middle key of a split node, or an exit(-1). */
  datatype Grown = Fit(node: Tree) | Split(left: Tree, middle: int, right: Tree) | Abort

  /** The in-order keys a grown level holds. */
  function Keys(g: Grown): seq<int>
  {
    match g
    case Fit(x) => Flatten(x)
    case Split(l, m, r) => Flatten(l) + [m] + Flatten(r)
    case Abort => []
  }

  /** An inserted node with the two orphans of the level below hung around the
      new key, as the loop does for an inner node. */
  function Orphaned(r: Inserted, lo: Tree, ro: Tree): (t: Tree)
    requires Framed(r.node) && 0 <= r.index < |r.node.keys|
    ensures Framed(t) && t.keys == r.node.keys && t.isLeaf == r.node.isLeaf
  {
    if r.node.isLeaf then r.node else r.node.(edges := r.node.edges[r.index := lo][r.index + 1 := ro])
  }

  /** One level of the loop: the key and the orphans lo and ro go into n when
      it has room; otherwise n is split at keys[L] and they go into the half
      the key belongs to. */
  function Place(n: Tree, key: int, lo: Tree, ro: Tree, L: nat): Grown
    requires Framed(n) && L >= 2
  {
    if |n.keys| < 2 * L - 1 then
      if FindKeyIndex(n.keys, key).exact then Abort else Fit(Orphaned(InsertKey(n, key), lo, ro))
    else if !SplitOk(n, n.keys[L]) then Abort
    else
      var p := SplitNode(n, n.keys[L]);
      if key < p.middle then
        if FindKeyIndex(p.left.keys, key).exact then Abort
        else Split(Orphaned(InsertKey(p.left, key), lo, ro), p.middle, p.right)
      else
        if FindKeyIndex(p.right.keys, key).exact then Abort
        else Split(p.left, p.middle, Orphaned(InsertKey(p.right, key), lo, ro))
  }

  /** An inner level of the loop: what the level below passed up goes into t
      at edge c, the child's edge. */
  function Lift(t: Tree, c: nat, g: Grown, L: nat): Grown
    requires Framed(t) && !t.isLeaf && c <= |t.keys| && L >= 2
  {
    match g
    case Fit(x) => Fit(Replace(t, c, x))
    case Split(l, m, r) => Place(t, m, l, r, L)
    case Abort => Abort
  }

  /** Insertion below t, h levels tall: down the route, then back up level by
      level. */
  function Ins(t: Tree, key: int, h: nat, L: nat): Grown
    requires Shape(t, h) && L >= 2
    decreases h
  {
    if h == 1 then Place(t, key, Nil, Nil, L)
    else
      var c := FindKeyIndex(t.keys, key).index + 1;
      Lift(t, c, Ins(t.edges[c], key, h - 1, L), L)
  }

  /** btree_insert: a key the route finds changes nothing; otherwise the root
      takes the key, or splits and a new root of one key and two edges goes
      on top. */
  function TreeInsert(root: Tree, depth: nat, L: nat, key: int): Outcome
    requires Shape(root, depth) && L >= 2
  {
    if Route(root, key, depth) == Present then Done(root, depth)
    else
      match Ins(root, key, depth, L)
      case Fit(x) => Done(x, depth)
      case Split(l, m, r) => Done(Node([m], false, [l, r]), depth + 1)
      case Abort => Aborted
  }

  // ---------------------------------------------------------------------------
  // One level
  // ---------------------------------------------------------------------------

  /** Filling the gap of two NULL edges with lo and ro. */
  lemma GapFilled<T>(s: seq<T>, c: nat, nil: T, lo: T, ro: T)
    requires c < |s|
    ensures (s[..c] + [nil, nil] + s[c + 1..])[c := lo][c + 1 := ro] == s[..c] + [lo, ro] + s[c + 1..]
  {
  }

  /** Putting x at c of the first k of s, dropping w after it, then
      appending the rest of s from k on is doing it on s. */
  lemma SpliceLeft<T>(s: seq<T>, k: nat, c: nat, x: seq<T>, w: nat)
    requires c + w <= k <= |s|
    ensures s[..k][..c] + x + s[..k][c + w..] + s[k..] == s[..c] + x + s[c + w..]
  {
    var u, v := s[..k][..c] + x + s[..k][c + w..] + s[k..], s[..c] + x + s[c + w..];
    assert |u| == |v|;
    forall j | 0 <= j < |u| ensures u[j] == v[j] {
      if j >= c + |x| {
        assert u[j] == s[j - |x| + w];
      }
    }
  }

  /** The same with the middle s[k] between the two parts, as joining keys
      does. */
  lemma SpliceLeftKeys<T>(s: seq<T>, k: nat, c: nat, x: seq<T>)
    requires c <= k < |s|
    ensures s[..k][..c] + x + s[..k][c..] + [s[k]] + s[k + 1..] == s[..c] + x + s[c..]
  {
    var u, v := s[..k][..c] + x + s[..k][c..] + [s[k]] + s[k + 1..], s[..c] + x + s[c..];
    assert |u| == |v|;
    forall j | 0 <= j < |u| ensures u[j] == v[j] {
      if j >= c + |x| {
        assert u[j] == s[j - |x|];
      }
    }
  }

  /** Putting x at c - k - 1 of s from k + 1 on, dropping w after it, behind
      the first k + 1 of s is doing it on s at c. */
  lemma SpliceRight<T>(s: seq<T>, k: nat, c: nat, x: seq<T>, w: nat)
    requires k < c && c + w <= |s|
    ensures s[..k + 1] + (s[k + 1..][..c - k - 1] + x + s[k + 1..][c - k - 1 + w..]) == s[..c] + x + s[c + w..]
  {
    var u, v := s[..k + 1] + (s[k + 1..][..c - k - 1] + x + s[k + 1..][c - k - 1 + w..]), s[..c] + x + s[c + w..];
    assert |u| == |v|;
    forall j | 0 <= j < |u| ensures u[j] == v[j] {
      if j >= c + |x| {
        assert u[j] == s[j - |x| + w];
      }
    }
  }

  /** The same with the middle s[k] between the two parts, as joining keys
      does. */
  lemma SpliceRightKeys<T>(s: seq<T>, k: nat, c: nat, x: seq<T>)
    requires k < c <= |s|
    ensures s[..k] + [s[k]] + (s[k + 1..][..c - k - 1] + x + s[k + 1..][c - k - 1..]) == s[..c] + x + s[c..]
  {
    var u, v := s[..k] + [s[k]] + (s[k + 1..][..c - k - 1] + x + s[k + 1..][c - k - 1..]), s[..c] + x + s[c..];
    assert |u| == |v|;
    forall j | 0 <= j < |u| ensures u[j] == v[j] {
      if j >= c + |x| {
        assert u[j] == s[j - |x|];
      }
    }
  }

  /** Inserting a key and hanging the orphans around it is expanding the node
      at the edge the key routes to. */
  lemma OrphanedExpand(n: Tree, key: int, lo: Tree, ro: Tree)
    requires Framed(n) && !FindKeyIndex(n.keys, key).exact
    ensures Orphaned(InsertKey(n, key), lo, ro) == Expand(n, FindKeyIndex(n.keys, key).index + 1, lo, key, ro)
  {
    if !n.isLeaf {
      GapFilled(n.edges, FindKeyIndex(n.keys, key).index + 1, Nil, lo, ro);
    }
  }

  /** The halves of n around keys[i], as _split_node_by_key cuts them. */
  function Halves(n: Tree, i: nat): (p: Pair)
    requires Framed(n) && i < |n.keys|
    ensures Framed(p.left) && Framed(p.right) && p.left.isLeaf == n.isLeaf && p.right.isLeaf == n.isLeaf
    ensures p.left.keys == n.keys[..i] && p.right.keys == n.keys[i + 1..] && p.middle == n.keys[i]
  {
    if n.isLeaf then Pair(Node(n.keys[..i], true, []), Node(n.keys[i + 1..], true, []), n.keys[i])
    else Pair(Node(n.keys[..i], false, n.edges[..i + 1]), Node(n.keys[i + 1..], false, n.edges[i + 1..]), n.keys[i])
  }

  /** Expanding the left half and joining it back is expanding the whole
      node. */
  lemma ExpandLeftHalf(n: Tree, i: nat, c: nat, lo: Tree, key: int, ro: Tree)
    requires Framed(n) && c <= i < |n.keys|
    ensures var p := Halves(n, i);
      JoinOk(Pair(Expand(p.left, c, lo, key, ro), p.right, p.middle)) &&
      JoinNodes(Pair(Expand(p.left, c, lo, key, ro), p.right, p.middle)) == Expand(n, c, lo, key, ro)
  {
    var p := Halves(n, i);
    var l := Expand(p.left, c, lo, key, ro);
    var j, e := JoinNodes(Pair(l, p.right, p.middle)), Expand(n, c, lo, key, ro);
    assert j.keys == e.keys by {
      assert l.keys == n.keys[..i][..c] + [key] + n.keys[..i][c..];
      assert j.keys == l.keys + [n.keys[i]] + n.keys[i + 1..];
      SpliceLeftKeys(n.keys, i, c, [key]);
    }
    if !n.isLeaf {
      assert j.edges == e.edges by {
        assert l.edges == n.edges[..i + 1][..c] + [lo, ro] + n.edges[..i + 1][c + 1..];
        assert j.edges == l.edges + n.edges[i + 1..];
        SpliceLeft(n.edges, i + 1, c, [lo, ro], 1);
      }
    }
  }

  /** Expanding the right half at c - i - 1 and joining it back is expanding
      the whole node at c. */
  lemma ExpandRightHalf(n: Tree, i: nat, c: nat, lo: Tree, key: int, ro: Tree)
    requires Framed(n) && i < c <= |n.keys|
    ensures var p := Halves(n, i);
      JoinOk(Pair(p.left, Expand(p.right, c - i - 1, lo, key, ro), p.middle)) &&
      JoinNodes(Pair(p.left, Expand(p.right, c - i - 1, lo, key, ro), p.middle)) == Expand(n, c, lo, key, ro)
  {
    RightHalfKeys(n, i, c, lo, key, ro);
    if !n.isLeaf {
      RightHalfEdges(n, i, c, lo, key, ro);
    }
  }

  lemma RightHalfKeys(n: Tree, i: nat, c: nat, lo: Tree, key: int, ro: Tree)
    requires Framed(n) && i < c <= |n.keys|
    ensures var p := Halves(n, i);
      JoinNodes(Pair(p.left, Expand(p.right, c - i - 1, lo, key, ro), p.middle)).keys == Expand(n, c, lo, key, ro).keys
  {
    var p := Halves(n, i);
    var d := c - i - 1;
    var r := Expand(p.right, d, lo, key, ro);
    assert r.keys == n.keys[i + 1..][..d] + [key] + n.keys[i + 1..][d..];
    SpliceRightKeys(n.keys, i, c, [key]);
  }

  lemma RightHalfEdges(n: Tree, i: nat, c: nat, lo: Tree, key: int, ro: Tree)
    requires Framed(n) && !n.isLeaf && i < c <= |n.keys|
    ensures var p := Halves(n, i);
      JoinNodes(Pair(p.left, Expand(p.right, c - i - 1, lo, key, ro), p.middle)).edges == Expand(n, c, lo, key, ro).edges
  {
    var p := Halves(n, i);
    var d := c - i - 1;
    var r := Expand(p.right, d, lo, key, ro);
    assert r.edges == n.edges[i + 1..][..d] + [lo, ro] + n.edges[i + 1..][d + 1..];
    SpliceRight(n.edges, i, c, [lo, ro], 1);
  }

  /** A full node with sorted keys splits at keys[L] exactly when L is an inner
      position, and the split key sits at index L. */
  lemma SplitAtL(n: Tree, L: nat)
    requires Framed(n) && Sorted(n.keys) && L < |n.keys|
    ensures FindKeyIndex(n.keys, n.keys[L]).index == L
    ensures SplitOk(n, n.keys[L]) <==> 0 < L < |n.keys| - 1
    ensures SplitOk(n, n.keys[L]) ==> SplitNode(n, n.keys[L]) == Halves(n, L)
  {
    FindKeyIndexSorted(n.keys, n.keys[L]);
    SortedUnique(n.keys, FindKeyIndex(n.keys, n.keys[L]).index, L);
  }

  /** One level of the loop, for a key strictly between the node's keys
      around edge c: with room, the node is expanded at c; when full, the
      split is refused for L = 2 only, and otherwise the two halves joined at
      the middle key keys[L] are the expanded node, with L or L + 1 keys on
      the left and at most L - 1 on the right. */
  lemma {:induction false} PlaceExpands(n: Tree, key: int, lo: Tree, ro: Tree, L: nat, c: nat)
    requires Framed(n) && L >= 2 && Sorted(n.keys) && Between(n.keys, key, c) && |n.keys| <= 2 * L - 1
    ensures var g := Place(n, key, lo, ro, L);
      (g == Abort <==> |n.keys| == 2 * L - 1 && L == 2) &&
      (g.Fit? <==> |n.keys| < 2 * L - 1) &&
      (g.Fit? ==> g.node == Expand(n, c, lo, key, ro)) &&
      (g.Split? ==>
        g.middle == n.keys[L] && JoinOk(Pair(g.left, g.right, g.middle)) &&
        JoinNodes(Pair(g.left, g.right, g.middle)) == Expand(n, c, lo, key, ro) &&
        L <= |g.left.keys| <= L + 1 && 1 <= |g.right.keys| <= L - 1)
  {
    FindBetween(n.keys, key, c);
    if |n.keys| < 2 * L - 1 {
      OrphanedExpand(n, key, lo, ro);
    } else {
      SplitAtL(n, L);
      if L > 2 {
        if key < n.keys[L] {
          PlaceLeft(n, key, lo, ro, L, c);
          ExpandLeftHalf(n, L, c, lo, key, ro);
        } else {
          PlaceRight(n, key, lo, ro, L, c);
          ExpandRightHalf(n, L, c, lo, key, ro);
        }
      }
    }
  }

  /** A full node takes a key below keys[L] into its left half. */
  lemma PlaceLeft(n: Tree, key: int, lo: Tree, ro: Tree, L: nat, c: nat)
    requires Framed(n) && L > 2 && Sorted(n.keys) && Between(n.keys, key, c) && |n.keys| == 2 * L - 1
    requires key < n.keys[L]
    ensures c <= L
    ensures Place(n, key, lo, ro, L) == Split(Expand(Halves(n, L).left, c, lo, key, ro), n.keys[L], Halves(n, L).right)
  {
    SplitAtL(n, L);
    var p := Halves(n, L);
    assert Orphaned(InsertKey(p.left, key), lo, ro) == Expand(p.left, c, lo, key, ro) by {
      BetweenHead(n.keys, key, c, L);
      FindBetween(p.left.keys, key, c);
      OrphanedExpand(p.left, key, lo, ro);
    }
  }

  /** A full node takes a key above keys[L] into its right half. */
  lemma PlaceRight(n: Tree, key: int, lo: Tree, ro: Tree, L: nat, c: nat)
    requires Framed(n) && L > 2 && Sorted(n.keys) && Between(n.keys, key, c) && |n.keys| == 2 * L - 1
    requires key !in n.keys && n.keys[L] <= key
    ensures L < c
    ensures Place(n, key, lo, ro, L) == Split(Halves(n, L).left, n.keys[L], Expand(Halves(n, L).right, c - L - 1, lo, key, ro))
  {
    SplitAtL(n, L);
    RightOrphaned(n, key, lo, ro, L, c);
  }

  /** The key goes into the right half at c - L - 1. */
  lemma RightOrphaned(n: Tree, key: int, lo: Tree, ro: Tree, L: nat, c: nat)
    requires Framed(n) && L < |n.keys| && Between(n.keys, key, c) && n.keys[L] < key
    ensures L < c
    ensures var p := Halves(n, L);
      !FindKeyIndex(p.right.keys, key).exact &&
      Orphaned(InsertKey(p.right, key), lo, ro) == Expand(p.right, c - L - 1, lo, key, ro)
  {
    var p := Halves(n, L);
    BetweenTail(n.keys, key, c, L + 1);
    FindBetween(p.right.keys, key, c - L - 1);
    OrphanedExpand(p.right, key, lo, ro);
  }

  /** A key between the keys around c is between those of a tail from k < c
      on around c - k. */
  lemma BetweenTail(keys: seq<int>, key: int, c: nat, k: nat)
    requires Between(keys, key, c) && k <= c
    ensures Between(keys[k..], key, c - k)
  {
  }

  /** A key between the keys around c is between those of a head of k >= c
      keys around c. */
  lemma BetweenHead(keys: seq<int>, key: int, c: nat, k: nat)
    requires Between(keys, key, c) && c <= k <= |keys|
    ensures Between(keys[..k], key, c)
  {
  }

  /** What a level holds once it has taken the key: Keys of the result. */
  lemma PlaceKeys(n: Tree, key: int, lo: Tree, ro: Tree, L: nat, c: nat)
    requires Framed(n) && L >= 2 && Sorted(n.keys) && Between(n.keys, key, c) && |n.keys| <= 2 * L - 1
    requires Place(n, key, lo, ro, L) != Abort
    ensures Keys(Place(n, key, lo, ro, L)) == Flatten(Expand(n, c, lo, key, ro))
  {
    PlaceExpands(n, key, lo, ro, L, c);
    var g := Place(n, key, lo, ro, L);
    if g.Split? {
      FlattenJoin(Pair(g.left, g.right, g.middle));
    }
  }

  /** Putting a key strictly between the parts around a sorted middle keeps
      the whole sorted and adds just that key. */
  lemma Sandwich(b: seq<int>, m: seq<int>, a: seq<int>, m2: seq<int>, key: int)
    requires Sorted(b + m + a) && Sorted(m2)
    requires forall x :: x in m2 <==> x in m || x == key
    requires forall x :: x in b ==> x < key
    requires forall x :: x in a ==> key < x
    ensures Sorted(b + m2 + a)
    ensures forall x :: x in b + m2 + a <==> x in b + m + a || x == key
  {
    SortedParts(b, m, a);
    SortedJoin(b, m2);
    assert forall x :: x in b + m2 <==> x in b || x in m2;
    SortedJoin(b + m2, a);
  }

  // ---------------------------------------------------------------------------
  // The whole loop
  // ---------------------------------------------------------------------------

  /** The sizes and shapes a level passes up: a node with at least as many
      keys (size) as the one it replaces, or two halves with a key each. */
  predicate Grew(g: Grown, size: nat, h: nat, L: nat)
  {
    match g
    case Fit(x) => Shape(x, h) && Occupied(x, L) && |x.keys| >= size
    case Split(l, m, r) =>
      Shape(l, h) && Shape(r, h) && Occupied(l, L) && Occupied(r, L) && |l.keys| >= 1 && |r.keys| >= 1
    case Abort => true
  }

  /** A level that took the key into a subtree holding the keys s and size
      keys at its top: refused only for L = 2, and otherwise sorted, holding s
      and the key, and shaped and occupied for h levels. */
  ghost predicate Took(g: Grown, s: seq<int>, key: int, size: nat, h: nat, L: nat)
  {
    (L >= 3 ==> g != Abort) &&
    (g != Abort ==> Sorted(Keys(g)) && (forall x :: x in Keys(g) <==> x in s || x == key) && Grew(g, size, h, L))
  }

  /** The leaf level of the loop. */
  lemma LeafInserted(t: Tree, key: int, L: nat)
    requires L >= 2 && Shape(t, 1) && Occupied(t, L) && Sorted(t.keys) && key !in t.keys
    ensures Took(Place(t, key, Nil, Nil, L), t.keys, key, |t.keys|, 1, L)
  {
    hide Place;
    BetweenFound(t.keys, key);
    var c := FindKeyIndex(t.keys, key).index + 1;
    PlaceExpands(t, key, Nil, Nil, L, c);
    var g := Place(t, key, Nil, Nil, L);
    if g != Abort {
      PlaceKeys(t, key, Nil, Nil, L, c);
      FlattenExpandLeaf(t, c, Nil, key, Nil);
      SortedInsertAt(t.keys, c, key);
      InsertAtMembers(t.keys, c, key);
      ExpandShape(t, c, Nil, key, Nil, 1, L);
      if g.Split? {
        HalvesShape(Pair(g.left, g.right, g.middle), 1, L);
      }
    }
  }

  /** An inner level of the loop, given what the level below passed up. */
  lemma LiftTook(t: Tree, key: int, h: nat, L: nat, c: nat, g: Grown)
    requires L >= 2 && h >= 2 && Shape(t, h) && Occupied(t, L) && Sorted(Flatten(t))
    requires c <= |t.keys|
    requires forall y :: y in Before(t, c) ==> y < key
    requires forall y :: y in After(t, c) ==> key < y
    requires Took(g, Flatten(t.edges[c]), key, 1, h - 1, L)
    ensures Took(Lift(t, c, g, L), Flatten(t), key, |t.keys|, h, L)
  {
    assert EdgesOccupied(t, L);
    match g
    case Fit(x) => InnerFit(t, key, h, L, c, x);
    case Split(l, m, r) => InnerSplit(t, key, h, L, c, l, m, r);
    case Abort =>
  }

  /** An inner level whose child took the key without splitting: the child
      is replaced at edge c. */
  lemma InnerFit(t: Tree, key: int, h: nat, L: nat, c: nat, x: Tree)
    requires L >= 2 && h >= 2 && Shape(t, h) && Occupied(t, L) && Sorted(Flatten(t))
    requires c <= |t.keys|
    requires forall y :: y in Before(t, c) ==> y < key
    requires forall y :: y in After(t, c) ==> key < y
    requires Sorted(Flatten(x)) && Shape(x, h - 1) && Occupied(x, L) && |x.keys| >= 1
    requires forall y :: y in Flatten(x) <==> y in Flatten(t.edges[c]) || y == key
    ensures var u := Replace(t, c, x);
      Sorted(Flatten(u)) && (forall y :: y in Flatten(u) <==> y in Flatten(t) || y == key) &&
      Shape(u, h) && Occupied(u, L)
  {
    Around(t, c);
    FlattenReplace(t, c, x);
    ReplaceShape(t, c, x, h, L);
    Sandwich(Before(t, c), Flatten(t.edges[c]), After(t, c), Flatten(x), key);
  }

  /** The middle key a child passes up lies between t's keys around the
      child's edge. */
  lemma MiddleBetween(t: Tree, key: int, c: nat, m: int, g: seq<int>)
    requires Framed(t) && !t.isLeaf && Sorted(Flatten(t)) && c <= |t.keys|
    requires forall y :: y in Before(t, c) ==> y < key
    requires forall y :: y in After(t, c) ==> key < y
    requires m in g && forall y :: y in g <==> y in Flatten(t.edges[c]) || y == key
    ensures Between(t.keys, m, c)
  {
    Around(t, c);
    SortedParts(Before(t, c), Flatten(t.edges[c]), After(t, c));
    KeysAround(t, c);
  }

  /** An inner level whose child split: the middle key and the two halves go
      into t at edge c. */
  lemma InnerSplit(t: Tree, key: int, h: nat, L: nat, c: nat, l: Tree, m: int, r: Tree)
    requires L >= 2 && h >= 2 && Shape(t, h) && Occupied(t, L) && Sorted(Flatten(t))
    requires c <= |t.keys|
    requires forall y :: y in Before(t, c) ==> y < key
    requires forall y :: y in After(t, c) ==> key < y
    requires Grew(Split(l, m, r), 0, h - 1, L)
    requires Sorted(Flatten(l) + [m] + Flatten(r))
    requires forall y :: y in Flatten(l) + [m] + Flatten(r) <==> y in Flatten(t.edges[c]) || y == key
    ensures var u := Place(t, m, l, r, L);
      (L >= 3 ==> u != Abort) &&
      (u != Abort ==> Sorted(Keys(u)) && (forall y :: y in Keys(u) <==> y in Flatten(t) || y == key) && Grew(u, |t.keys|, h, L))
  {
    var g := Flatten(l) + [m] + Flatten(r);
    MiddleBetween(t, key, c, m, g);
    NodeKeysSorted(t);
    PlaceExpands(t, m, l, r, L, c);
    if Place(t, m, l, r, L) != Abort {
      PlaceInner(t, m, l, r, L, c);
      Around(t, c);
      Sandwich(Before(t, c), Flatten(t.edges[c]), After(t, c), g, key);
      PlaceGrew(t, m, l, r, L, c, h);
    }
  }

  /** The keys an inner level holds after taking a middle key and two
      halves at edge c. */
  lemma PlaceInner(t: Tree, m: int, l: Tree, r: Tree, L: nat, c: nat)
    requires Framed(t) && !t.isLeaf && L >= 2 && Sorted(t.keys) && Between(t.keys, m, c) && |t.keys| <= 2 * L - 1
    requires Place(t, m, l, r, L) != Abort
    ensures Keys(Place(t, m, l, r, L)) == Before(t, c) + (Flatten(l) + [m] + Flatten(r)) + After(t, c)
  {
    PlaceKeys(t, m, l, r, L, c);
    FlattenExpand(t, c, l, m, r);
    Regroup(Before(t, c), Flatten(l), [m], Flatten(r), After(t, c));
  }

  /** Regrouping five concatenated parts. */
  lemma Regroup<T>(b: seq<T>, x: seq<T>, y: seq<T>, z: seq<T>, a: seq<T>)
    ensures b + x + y + z + a == b + (x + y + z) + a
  {
    assert b + x + y + z == b + (x + y + z);
  }

  /** The shapes an inner level passes up after taking a middle key and two
      halves at edge c. */
  lemma PlaceGrew(t: Tree, m: int, l: Tree, r: Tree, L: nat, c: nat, h: nat)
    requires L >= 2 && h >= 2 && Shape(t, h) && Occupied(t, L) && Sorted(t.keys) && Between(t.keys, m, c)
    requires Grew(Split(l, m, r), 0, h - 1, L)
    requires Place(t, m, l, r, L) != Abort
    ensures Grew(Place(t, m, l, r, L), |t.keys|, h, L)
  {
    PlaceExpands(t, m, l, r, L, c);
    ExpandShape(t, c, l, m, r, h, L);
    var u := Place(t, m, l, r, L);
    if u.Split? {
      HalvesShape(Pair(u.left, u.right, u.middle), h, L);
    }
  }

  /** The upward loop on a well-formed sorted tree that does not hold the key:
      it is refused only for L = 2, and otherwise what it passes up is sorted,
      holds the tree's keys and the new one, and is as tall and occupied as
      the tree. */
  lemma {:induction false} InsCorrect(t: Tree, key: int, h: nat, L: nat)
    requires L >= 2 && Shape(t, h) && Occupied(t, L) && Sorted(Flatten(t)) && key !in Flatten(t)
    ensures Took(Ins(t, key, h, L), Flatten(t), key, |t.keys|, h, L)
    decreases h
  {
    hide Place, Lift;
    KeysInFlatten(t);
    NodeKeysSorted(t);
    if h == 1 {
      LeafInserted(t, key, L);
    } else {
      Routing(t, key);
      var c := FindKeyIndex(t.keys, key).index + 1;
      InsCorrect(t.edges[c], key, h - 1, L);
      assert EdgesOccupied(t, L);
      LiftTook(t, key, h, L, c, Ins(t.edges[c], key, h - 1, L));
    }
  }

  // ---------------------------------------------------------------------------
  // btree_insert
  // ---------------------------------------------------------------------------

  /** Inserting a key the tree already holds changes nothing. */
  lemma InsertPresent(root: Tree, depth: nat, L: nat, key: int)
    requires Valid(root, depth, L) && key in Flatten(root)
    ensures TreeInsert(root, depth, L, key) == Done(root, depth)
  {
    RouteFinds(root, key, depth);
  }

  /** What btree_insert leaves when it does not exit: a valid tree holding
      the old keys and the new one, as deep as before or one level deeper
      under a root of one key and two edges. */
  ghost predicate InsertedTree(o: Outcome, root: Tree, depth: nat, L: nat, key: int)
  {
    o.Done? ==>
      Valid(o.root, o.depth, L) && (forall x :: x in Flatten(o.root) <==> x in Flatten(root) || x == key) &&
      (o.depth == depth || (o.depth == depth + 1 && |o.root.keys| == 1 && |o.root.edges| == 2))
  }

  /** A root that took the key without splitting keeps the tree valid. */
  lemma FitValid(root: Tree, x: Tree, depth: nat, L: nat, key: int)
    requires Valid(root, depth, L) && Took(Fit(x), Flatten(root), key, |root.keys|, depth, L)
    ensures InsertedTree(Done(x, depth), root, depth, L, key)
  {
  }

  /** A split root's new root, one key over the two halves, is valid one
      level deeper. */
  lemma NewRootValid(root: Tree, depth: nat, L: nat, key: int, l: Tree, m: int, r: Tree)
    requires L >= 2 && depth >= 1 && Took(Split(l, m, r), Flatten(root), key, 0, depth, L)
    ensures InsertedTree(Done(Node([m], false, [l, r]), depth + 1), root, depth, L, key)
  {
    NewRootKeys(root, key, l, m, r);
    NewRootShape(l, m, r, depth, L);
  }

  /** The new root holds the keys of its halves around the middle key. */
  lemma NewRootKeys(root: Tree, key: int, l: Tree, m: int, r: Tree)
    requires Sorted(Keys(Split(l, m, r))) && forall x :: x in Keys(Split(l, m, r)) <==> x in Flatten(root) || x == key
    ensures Sorted(Flatten(Node([m], false, [l, r])))
    ensures forall x :: x in Flatten(Node([m], false, [l, r])) <==> x in Flatten(root) || x == key
  {
    FlattenRoot(l, m, r);
  }

  /** The new root is shaped and occupied one level above its halves. */
  lemma NewRootShape(l: Tree, m: int, r: Tree, depth: nat, L: nat)
    requires L >= 2 && depth >= 1 && Grew(Split(l, m, r), 0, depth, L)
    ensures Shape(Node([m], false, [l, r]), depth + 1) && Occupied(Node([m], false, [l, r]), L)
  {
    var t := Node([m], false, [l, r]);
    assert forall i :: 0 <= i < |t.edges| ==> t.edges[i] == l || t.edges[i] == r;
  }

  /** Inserting into a valid tree: exit(-1) happens only when a full node is
      split with L = 2; otherwise the tree stays valid, holds its keys and the
      new one, and either keeps its depth or grows by one level under a new
      root of one key and two edges. */
  lemma InsertCorrect(root: Tree, depth: nat, L: nat, key: int)
    requires Valid(root, depth, L)
    ensures TreeInsert(root, depth, L, key).Done? || TreeInsert(root, depth, L, key).Aborted?
    ensures L >= 3 ==> TreeInsert(root, depth, L, key) != Aborted
    ensures InsertedTree(TreeInsert(root, depth, L, key), root, depth, L, key)
  {
    var o := TreeInsert(root, depth, L, key);
    RouteFinds(root, key, depth);
    if key in Flatten(root) {
      assert o == Done(root, depth);
    } else {
      InsCorrect(root, key, depth, L);
      match Ins(root, key, depth, L)
      case Fit(x) =>
        assert o == Done(x, depth);
        FitValid(root, x, depth, L, key);
      case Split(l, m, r) =>
        assert o == Done(Node([m], false, [l, r]), depth + 1);
        NewRootValid(root, depth, L, key, l, m, r);
      case Abort =>
        assert o == Aborted;
    }
  }

  /** With L = 2 a full node holds three keys and the split at keys[2] is
      refused: inserting into the leaf root [1, 2, 3] exits. */
  lemma InsertAbortsForL2()
    ensures TreeInsert(Node([1, 2, 3], true, []), 1, 2, 4) == Aborted
  {
    var n := Node([1, 2, 3], true, []);
    assert n.keys[2] == 3;
    assert FindKeyIndex(n.keys, 4) == Found(2, false);
    assert FindKeyIndex(n.keys, 3) == Found(2, true);
    assert !SplitOk(n, 3);
    assert Place(n, 4, Nil, Nil, 2) == Abort;
  }

  /** With L = 3 the full leaf [1, 2, 3, 4, 5] splits at keys[3] = 4: the
      right half keeps L - 2 = 1 key, [5], and takes 6. */
  lemma FullLeafSplits()
    ensures Place(Node([1, 2, 3, 4, 5], true, []), 6, Nil, Nil, 3) ==
      Split(Node([1, 2, 3], true, []), 4, Node([5, 6], true, []))
  {
    var n := Node([1, 2, 3, 4, 5], true, []);
    assert n.keys[3] == 4;
    assert FindKeyIndex(n.keys, 4) == Found(3, true);
    assert SplitNode(n, 4) == Pair(Node([1, 2, 3], true, []), Node([5], true, []), 4);
    assert FindKeyIndex([5], 6) == Found(0, false);
    assert InsertKey(Node([5], true, []), 6).node == Node([5, 6], true, []);
  }
}
