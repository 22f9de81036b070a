/** struct btree_iter (09-btree/btree.c): an in-order iterator over a B-tree
    that keeps, for every level from the root down to index_depth, the node
    it is in and an index into it, with btree_iter_start and btree_iter_next. */
module BTreeIter {
  import opened BTreeNode
  import opened BTreeShape
  import BTrees

  // ---------------------------------------------------------------------------
  // What is still to come

  /** The in-order keys of node n from key i on: at an inner node, key i is
      followed by everything below edge i + 1, and so on. */
  function Seg(n: Tree, i: int): seq<int>
    requires Framed(n) && 0 <= i <= |n.keys|
  {
    if n.isLeaf then n.keys[i..] else After(n, i)
  }

  /** The keys the stack still holds: those of the level it is at from its
      index on, then those of every level above it behind the edge it went
      down. */
  function Pending(ns: seq<Tree>, ix: seq<int>, d: int): seq<int>
    decreases d
  {
    if d < 0 || d >= |ns| || d >= |ix| || !Framed(ns[d]) || !(0 <= ix[d] <= |ns[d].keys|) then []
    else Seg(ns[d], ix[d]) + Pending(ns, ix, d - 1)
  }

  /** The stack of a tree root of the given depth, at level d: node j + 1 is
      edge indexes[j] of node j, every node has the height of its level and,
      below the root, a key. */
  ghost predicate Chain(root: Tree, depth: int, L: nat, ns: seq<Tree>, ix: seq<int>, d: int)
  {
    |ns| == depth && |ix| == depth && 0 <= d < depth && ns[0] == root &&
    (forall j :: 0 <= j <= d ==>
      Shape(ns[j], depth - j) && Occupied(ns[j], L) && 0 <= ix[j] <= |ns[j].keys| && (j > 0 ==> |ns[j].keys| >= 1)) &&
    (forall j :: 0 <= j < d ==> ns[j + 1] == ns[j].edges[ix[j]])
  }

  // ---------------------------------------------------------------------------
  // btree_iter_start and btree_iter_next

  class Iter {
    ghost const root: Tree
    ghost const L: nat
    /** The depth of the tree when the iteration started. */
    const depth: int
    const indexes: array<int>
    const nodes: array<Tree>
    var indexDepth: int
    var finished: bool
    /** The keys returned so far. */
    ghost var emitted: seq<int>

    /** The keys the iterator has yet to return. */
    ghost function Rest(): seq<int>
      reads this, nodes, indexes
    {
      if finished then [] else Pending(nodes[..], indexes[..], indexDepth)
    }

    /** The keys returned so far followed by those still to come are the
        tree's keys in order; an iterator that is not finished is at a key,
        unless the tree is empty. */
    ghost predicate Valid()
      reads this, nodes, indexes
    {
      BTreeShape.Valid(root, depth, L) &&
      nodes.Length == depth && indexes.Length == depth &&
      emitted + Rest() == Flatten(root) &&
      (!finished ==>
        Chain(root, depth, L, nodes[..], indexes[..], indexDepth) &&
        (indexes[indexDepth] < |nodes[indexDepth].keys| || Flatten(root) == []))
    }

    /** btree_iter_start: every index 0, and the nodes down the leftmost edges
        from the root to a leaf. */
    constructor Start(t: BTrees.BTree)
      requires t.Valid()
      ensures Valid() && !finished && emitted == [] && Rest() == t.Contents()
      ensures root == t.root && depth == t.depth && L == t.L
      ensures fresh(nodes) && fresh(indexes)
    {
      hide Valid, Rest, Pending, Chain, Flatten, Seg, Shape, Occupied;
      var dep := t.depth;
      var ix := new int[dep];
      for i := 0 to dep
        invariant forall j :: 0 <= j < i ==> ix[j] == 0
      {
        ix[i] := 0;
      }
      var ns := new Tree[dep];
      ns[0] := t.root;
      StartChain(t.root, dep, t.L, ns[..], ix[..]);
      for i := 1 to dep
        invariant Chain(t.root, dep, t.L, ns[..], ix[..], i - 1)
        invariant forall j :: 0 <= j < dep ==> ix[j] == 0
        invariant Flatten(ns[i - 1]) + Pending(ns[..], ix[..], i - 2) == Flatten(t.root)
      {
        ghost var s0, t0 := ns[..], ix[..];
        AtLevel(t.root, dep, t.L, s0, t0, i - 1);
        ns[i] := ns[i - 1].edges[0];
        assert t0[i - 1] == 0;
        assert t0[i - 1 := 0][i := 0] == ix[..] && s0[i := s0[i - 1].edges[0]] == ns[..];
        DescendLeft(t.root, dep, t.L, s0, t0, i - 1, ns[..], ix[..]);
      }
      LeafStart(t.root, dep, t.L, ns[..], ix[..], dep - 1);
      root, L, depth := t.root, t.L, dep;
      indexes, nodes := ix, ns;
      indexDepth := dep - 1;
      finished := false;
      emitted := [];
      new;
      RestIs();
      Close();
    }

    /** btree_iter_next: nothing once finished; otherwise the next key in
        order, after which the iterator is at the key behind it, and is
        finished exactly when no key is left. */
    method Next() returns (b: bool, x: int)
      requires Valid() && Flatten(root) != []
      modifies this, nodes, indexes
      ensures Valid()
      ensures old(finished) ==>
        (!b && finished && emitted == old(emitted) && indexDepth == old(indexDepth) &&
         nodes[..] == old(nodes[..]) && indexes[..] == old(indexes[..]))
      ensures !old(finished) ==>
        (b && old(Rest()) != [] && x == old(Rest())[0] && Rest() == old(Rest())[1..] && emitted == old(emitted) + [x])
      ensures b ==> (finished <==> Rest() == []) && (forall y :: y in Rest() ==> x < y)
      ensures Sorted(emitted) && (finished ==> emitted == Flatten(root))
    {
      if finished {
        Increasing(emitted, []);
        return false, 0;
      }
      x := Take();
      b := true;
    }

    /** The part of btree_iter_next that returns a key. */
    method Take() returns (x: int)
      requires Valid() && Flatten(root) != [] && !finished
      modifies this, nodes, indexes
      ensures Valid() && old(Rest()) != [] && x == old(Rest())[0] && Rest() == old(Rest())[1..]
      ensures emitted == old(emitted) + [x] && (finished <==> Rest() == [])
      ensures (forall y :: y in Rest() ==> x < y) && Sorted(emitted)
    {
      hide Valid, Rest, Pending, Chain, Flatten, Seg, Shape, Occupied;
      Open();
      ghost var rest, before := Rest(), emitted;
      var d := indexDepth;
      ghost var s0, t0 := nodes[..], indexes[..];
      AtLevel(root, depth, L, s0, t0, d);
      var cur := nodes[d];
      x := cur.keys[indexes[d]];
      indexes[d] := indexes[d] + 1;
      emitted := emitted + [x];
      if cur.isLeaf {
        LeafTake(root, depth, L, s0, t0, d);
        assert indexes[..] == t0[d := t0[d] + 1];
        Pop(rest[1..]);
      } else {
        InnerTake(root, depth, L, s0, t0, d);
        nodes[d + 1] := cur.edges[indexes[d]];
        indexes[d + 1] := 0;
        indexDepth := d + 1;
        assert nodes[..] == s0[d + 1 := cur.edges[t0[d] + 1]];
        assert indexes[..] == t0[d := t0[d] + 1][d + 1 := 0];
        Dive(rest[1..]);
      }
      RestIs();
      Emitted(before, x, rest);
      Close();
    }

    /** What Valid states. */
    lemma Open()
      requires Valid()
      ensures BTreeShape.Valid(root, depth, L) && nodes.Length == depth && indexes.Length == depth
      ensures emitted + Rest() == Flatten(root)
      ensures !finished ==>
        Chain(root, depth, L, nodes[..], indexes[..], indexDepth) &&
        (indexes[indexDepth] < |nodes[indexDepth].keys| || Flatten(root) == [])
      ensures Rest() == if finished then [] else Pending(nodes[..], indexes[..], indexDepth)
    {
    }

    /** What Rest is. */
    lemma RestIs()
      requires nodes.Length == depth && indexes.Length == depth
      ensures Rest() == if finished then [] else Pending(nodes[..], indexes[..], indexDepth)
    {
    }

    /** What makes the iterator valid. */
    lemma Close()
      requires BTreeShape.Valid(root, depth, L) && nodes.Length == depth && indexes.Length == depth
      requires emitted + Rest() == Flatten(root)
      requires !finished ==>
        Chain(root, depth, L, nodes[..], indexes[..], indexDepth) &&
        (indexes[indexDepth] < |nodes[indexDepth].keys| || Flatten(root) == [])
      ensures Valid()
    {
    }

    /** The loop of btree_iter_next after a key of a leaf: levels whose keys
        are all returned are left upwards, and the iterator is finished when
        the root's are. */
    method Pop(ghost rest: seq<int>)
      requires !finished && nodes.Length == depth && indexes.Length == depth
      requires Chain(root, depth, L, nodes[..], indexes[..], indexDepth)
      requires Pending(nodes[..], indexes[..], indexDepth) == rest
      modifies this`indexDepth, this`finished, indexes
      ensures finished <==> rest == []
      ensures !finished ==>
        Chain(root, depth, L, nodes[..], indexes[..], indexDepth) && indexes[indexDepth] < |nodes[indexDepth].keys| &&
        Pending(nodes[..], indexes[..], indexDepth) == rest
    {
      hide Pending, Chain, Flatten, Seg, Shape, Occupied;
      while true
        invariant !finished
        invariant Chain(root, depth, L, nodes[..], indexes[..], indexDepth)
        invariant Pending(nodes[..], indexes[..], indexDepth) == rest
        decreases indexDepth
      {
        AtLevel(root, depth, L, nodes[..], indexes[..], indexDepth);
        if indexes[indexDepth] < |nodes[indexDepth].keys| {
          return;
        } else if indexDepth == 0 {
          finished := true;
          FinishedLast(root, depth, L, nodes[..], indexes[..]);
          return;
        } else {
          ghost var t1 := indexes[..];
          indexes[indexDepth] := -1;
          PopStep(root, depth, L, nodes[..], t1, indexDepth);
          assert indexes[..] == t1[indexDepth := -1];
          indexDepth := indexDepth - 1;
        }
      }
    }

    /** The loop of btree_iter_next after a key of an inner node: down the
        leftmost edges to a leaf, with index 0 at every level. */
    method Dive(ghost rest: seq<int>)
      requires !finished && nodes.Length == depth && indexes.Length == depth && indexDepth >= 1
      requires Chain(root, depth, L, nodes[..], indexes[..], indexDepth) && indexes[indexDepth] == 0
      requires Flatten(nodes[indexDepth]) + Pending(nodes[..], indexes[..], indexDepth - 1) == rest
      modifies this`indexDepth, nodes, indexes
      ensures Chain(root, depth, L, nodes[..], indexes[..], indexDepth) && indexes[indexDepth] < |nodes[indexDepth].keys|
      ensures Pending(nodes[..], indexes[..], indexDepth) == rest && rest != []
    {
      hide Pending, Chain, Flatten, Seg, Shape, Occupied;
      AtLevel(root, depth, L, nodes[..], indexes[..], indexDepth);
      while indexDepth < depth - 1
        invariant 1 <= indexDepth <= depth - 1
        invariant Chain(root, depth, L, nodes[..], indexes[..], indexDepth) && indexes[indexDepth] == 0
        invariant Flatten(nodes[indexDepth]) + Pending(nodes[..], indexes[..], indexDepth - 1) == rest
        decreases depth - indexDepth
      {
        ghost var s1, t1 := nodes[..], indexes[..];
        AtLevel(root, depth, L, s1, t1, indexDepth);
        nodes[indexDepth + 1] := nodes[indexDepth].edges[0];
        indexes[indexDepth + 1] := 0;
        assert nodes[..] == s1[indexDepth + 1 := s1[indexDepth].edges[0]];
        assert indexes[..] == t1[indexDepth := 0][indexDepth + 1 := 0];
        DescendLeft(root, depth, L, s1, t1, indexDepth, nodes[..], indexes[..]);
        indexDepth := indexDepth + 1;
      }
      LeafStart(root, depth, L, nodes[..], indexes[..], indexDepth);
      AtLevel(root, depth, L, nodes[..], indexes[..], indexDepth);
    }

    /** What a step leaves behind a returned key x: the keys returned so far
        stay increasing and x is below every key still to come. */
    lemma Emitted(before: seq<int>, x: int, rest: seq<int>)
      requires BTreeShape.Valid(root, depth, L) && before + rest == Flatten(root) && rest != [] && rest[0] == x
      ensures Sorted(before + [x]) && (forall y :: y in rest[1..] ==> x < y) && (before + [x]) + rest[1..] == Flatten(root)
    {
      assert before + rest == (before + [x]) + rest[1..];
      Increasing(before + [x], rest[1..]);
      assert x in before + [x];
    }

    /** The keys returned so far are increasing. */
    lemma Increasing(a: seq<int>, b: seq<int>)
      requires BTreeShape.Valid(root, depth, L) && a + b == Flatten(root)
      ensures Sorted(a) && forall y, z :: y in a && z in b ==> y < z
    {
      SortedSplit(a, b);
    }
  }

  // ---------------------------------------------------------------------------
  // Steps of the stack

  /** The root alone is a stack at level 0 holding every key of the tree. */
  lemma StartChain(root: Tree, depth: int, L: nat, ns: seq<Tree>, ix: seq<int>)
    requires BTreeShape.Valid(root, depth, L) && |ns| == depth && |ix| == depth && ns[0] == root
    requires forall j :: 0 <= j < depth ==> ix[j] == 0
    ensures Chain(root, depth, L, ns, ix, 0)
    ensures Flatten(ns[0]) + Pending(ns, ix, -1) == Flatten(root)
  {
  }

  /** The node the stack is at: framed, a leaf exactly at the last level,
      and with its index at a key unless every key of the tree is returned or
      the tree is empty. */
  lemma AtLevel(root: Tree, depth: int, L: nat, ns: seq<Tree>, ix: seq<int>, d: int)
    requires Chain(root, depth, L, ns, ix, d)
    ensures |ns| == depth && |ix| == depth && 0 <= d < depth && ns[0] == root
    ensures Framed(ns[d]) && (ns[d].isLeaf <==> d == depth - 1) && 0 <= ix[d] <= |ns[d].keys|
    ensures d > 0 ==> |ns[d].keys| >= 1
    ensures ix[d] < |ns[d].keys| ==> Pending(ns, ix, d) != [] && Pending(ns, ix, d)[0] == ns[d].keys[ix[d]]
  {
    assert Shape(ns[d], depth - d);
    if ix[d] < |ns[d].keys| && !ns[d].isLeaf {
      AfterAt(ns[d], ix[d]);
    }
  }

  /** Going down edge i of an inner node the stack is at, with index 0 for
      the child, keeps the stack a chain one level lower. */
  lemma ChainDown(root: Tree, depth: int, L: nat, ns: seq<Tree>, ix: seq<int>, d: int, i: int)
    requires Chain(root, depth, L, ns, ix, d) && d < depth - 1 && 0 <= i <= |ns[d].keys|
    ensures Chain(root, depth, L, ns[d + 1 := ns[d].edges[i]], ix[d := i][d + 1 := 0], d + 1)
  {
    var n := ns[d];
    var ns2, ix2 := ns[d + 1 := n.edges[i]], ix[d := i][d + 1 := 0];
    assert Shape(n, depth - d) && Occupied(n, L);
    assert EdgesOccupied(n, L);
    forall j | 0 <= j <= d + 1
      ensures Shape(ns2[j], depth - j) && Occupied(ns2[j], L) && 0 <= ix2[j] <= |ns2[j].keys| && (j > 0 ==> |ns2[j].keys| >= 1)
    {
      if j < d {
        assert ns2[j] == ns[j] && ix2[j] == ix[j];
      } else if j == d {
        assert ns2[j] == n;
      }
    }
    forall j | 0 <= j < d + 1
      ensures ns2[j + 1] == ns2[j].edges[ix2[j]]
    {
      if j < d {
        assert ns2[j + 1] == ns[j + 1] && ns2[j] == ns[j] && ix2[j] == ix[j];
      }
    }
  }

  /** After that step, the keys to come at the inner node are those behind
      edge i, then those of the levels above. */
  lemma PendingDown(ns: seq<Tree>, ix: seq<int>, d: int, i: int)
    requires 0 <= d && d + 1 < |ns| && d + 1 < |ix| && Framed(ns[d]) && !ns[d].isLeaf && 0 <= i <= |ns[d].keys|
    ensures Pending(ns[d + 1 := ns[d].edges[i]], ix[d := i][d + 1 := 0], d) == After(ns[d], i) + Pending(ns, ix, d - 1)
  {
    hide Pending, Seg, After, Flatten, Before, Shape, Occupied, Chain;
    PendingSet(ns, ix, d, i);
    PendingAt(ns, ix[d := i], d);
    PendingUpdate(ns, ix[d := i], d, d + 1, ns[d].edges[i], 0);
  }

  /** Going down edge 0 of an inner node the stack is at, with index 0,
      leaves the same keys to come. */
  lemma DescendLeft(root: Tree, depth: int, L: nat, ns: seq<Tree>, ix: seq<int>, d: int, ns2: seq<Tree>, ix2: seq<int>)
    requires Chain(root, depth, L, ns, ix, d) && d < depth - 1 && ix[d] == 0
    requires ns2 == ns[d + 1 := ns[d].edges[0]] && ix2 == ix[d := 0][d + 1 := 0]
    ensures Chain(root, depth, L, ns2, ix2, d + 1)
    ensures Flatten(ns2[d + 1]) + Pending(ns2, ix2, d) == Flatten(ns[d]) + Pending(ns, ix, d - 1)
  {
    hide *;
    AtLevel(root, depth, L, ns, ix, d);
    ChainDown(root, depth, L, ns, ix, d, 0);
    PendingDown(ns, ix, d, 0);
    Around(ns[d], 0);
    BeforeNone(ns[d]);
  }

  /** Nothing is ahead of edge 0. */
  lemma BeforeNone(n: Tree)
    requires Framed(n) && !n.isLeaf
    ensures Before(n, 0) == []
  {
  }

  /** One level of the keys to come. */
  lemma PendingAt(ns: seq<Tree>, ix: seq<int>, d: int)
    requires 0 <= d < |ns| && d < |ix| && Framed(ns[d]) && 0 <= ix[d] <= |ns[d].keys|
    ensures Pending(ns, ix, d) == Seg(ns[d], ix[d]) + Pending(ns, ix, d - 1)
    ensures Seg(ns[d], ix[d]) == if ns[d].isLeaf then ns[d].keys[ix[d]..] else After(ns[d], ix[d])
    ensures d == 0 ==> Pending(ns, ix, d - 1) == []
  {
  }

  /** Key i of an inner node comes first behind edge i, then edge i + 1. */
  lemma AfterAt(n: Tree, i: int)
    requires Framed(n) && !n.isLeaf && 0 <= i < |n.keys|
    ensures After(n, i) == [n.keys[i]] + Flatten(n.edges[i + 1]) + After(n, i + 1)
  {
  }

  /** At a leaf with index 0 the keys to come are the leaf's keys and those
      above it, and the leaf has a key unless the tree is empty. */
  lemma LeafStart(root: Tree, depth: int, L: nat, ns: seq<Tree>, ix: seq<int>, d: int)
    requires Chain(root, depth, L, ns, ix, d) && d == depth - 1 && ix[d] == 0
    ensures Pending(ns, ix, d) == Flatten(ns[d]) + Pending(ns, ix, d - 1)
    ensures ix[d] < |ns[d].keys| || Flatten(root) == []
  {
    assert Shape(ns[d], 1);
  }

  /** Returning key is[d] of a leaf moves its index on by one. */
  lemma LeafTake(root: Tree, depth: int, L: nat, ns: seq<Tree>, ix: seq<int>, d: int)
    requires Chain(root, depth, L, ns, ix, d) && ns[d].isLeaf && ix[d] < |ns[d].keys|
    ensures var ix2 := ix[d := ix[d] + 1];
      Chain(root, depth, L, ns, ix2, d) &&
      Pending(ns, ix, d) == [ns[d].keys[ix[d]]] + Pending(ns, ix2, d)
  {
    hide Pending, Seg, After, Flatten, Before, Shape, Occupied, Chain;
    AtLevel(root, depth, L, ns, ix, d);
    var ix2 := ix[d := ix[d] + 1];
    ChainSet(root, depth, L, ns, ix, d, ix[d] + 1);
    PendingSet(ns, ix, d, ix[d] + 1);
    PendingAt(ns, ix, d);
    PendingAt(ns, ix2, d);
    assert ns[d].keys[ix[d]..] == [ns[d].keys[ix[d]]] + ns[d].keys[ix[d] + 1..];
  }

  /** Returning key i of an inner node moves its index to i + 1 and the
      stack to edge i + 1, with everything below that edge to come first. */
  lemma InnerTake(root: Tree, depth: int, L: nat, ns: seq<Tree>, ix: seq<int>, d: int)
    requires Chain(root, depth, L, ns, ix, d) && !ns[d].isLeaf && ix[d] < |ns[d].keys|
    ensures d < depth - 1
    ensures var n, i := ns[d], ix[d];
      var ns2, ix2 := ns[d + 1 := n.edges[i + 1]], ix[d := i + 1][d + 1 := 0];
      Chain(root, depth, L, ns2, ix2, d + 1) && ix2[d + 1] == 0 &&
      Pending(ns, ix, d) == [n.keys[i]] + (Flatten(ns2[d + 1]) + Pending(ns2, ix2, d))
  {
    hide *;
    AtLevel(root, depth, L, ns, ix, d);
    var n, i := ns[d], ix[d];
    ChainDown(root, depth, L, ns, ix, d, i + 1);
    PendingDown(ns, ix, d, i + 1);
    PendingAt(ns, ix, d);
    AfterAt(n, i);
  }

  /** A level whose keys are all returned is left for the one above it. */
  lemma PopStep(root: Tree, depth: int, L: nat, ns: seq<Tree>, ix: seq<int>, d: int)
    requires Chain(root, depth, L, ns, ix, d) && d > 0 && ix[d] == |ns[d].keys|
    ensures Chain(root, depth, L, ns, ix[d := -1], d - 1)
    ensures Pending(ns, ix[d := -1], d - 1) == Pending(ns, ix, d)
  {
    hide Pending, Seg, After, Flatten, Before, Shape, Occupied, Chain;
    AtLevel(root, depth, L, ns, ix, d);
    ChainUp(root, depth, L, ns, ix, d, -1);
    PendingSet(ns, ix, d, -1);
    PendingAt(ns, ix, d);
    SegEnd(ns[d]);
  }

  /** A root whose keys are all returned leaves nothing to come. */
  lemma FinishedLast(root: Tree, depth: int, L: nat, ns: seq<Tree>, ix: seq<int>)
    requires Chain(root, depth, L, ns, ix, 0) && ix[0] >= |ns[0].keys|
    ensures Pending(ns, ix, 0) == []
  {
    hide Pending, Seg, After, Flatten, Before, Shape, Occupied, Chain;
    AtLevel(root, depth, L, ns, ix, 0);
    PendingAt(ns, ix, 0);
    SegEnd(ns[0]);
  }

  /** Nothing of a node is left from its last key on. */
  lemma SegEnd(n: Tree)
    requires Framed(n)
    ensures Seg(n, |n.keys|) == []
  {
    if !n.isLeaf {
      assert After(n, |n.keys|) == [];
    }
  }

  /** An index set anywhere in the node the stack is at keeps it a chain. */
  lemma ChainSet(root: Tree, depth: int, L: nat, ns: seq<Tree>, ix: seq<int>, d: int, w: int)
    requires Chain(root, depth, L, ns, ix, d) && 0 <= w <= |ns[d].keys|
    ensures Chain(root, depth, L, ns, ix[d := w], d)
  {
    var ix2 := ix[d := w];
    forall j | 0 <= j <= d
      ensures Shape(ns[j], depth - j) && Occupied(ns[j], L) && 0 <= ix2[j] <= |ns[j].keys| && (j > 0 ==> |ns[j].keys| >= 1)
    {
    }
    forall j | 0 <= j < d
      ensures ns[j + 1] == ns[j].edges[ix2[j]]
    {
      assert ix2[j] == ix[j];
    }
  }

  /** The levels above the one the stack is at are a chain, whatever the index
      of that level. */
  lemma ChainUp(root: Tree, depth: int, L: nat, ns: seq<Tree>, ix: seq<int>, d: int, w: int)
    requires Chain(root, depth, L, ns, ix, d) && d > 0
    ensures Chain(root, depth, L, ns, ix[d := w], d - 1)
  {
    var ix2 := ix[d := w];
    forall j | 0 <= j <= d - 1
      ensures Shape(ns[j], depth - j) && Occupied(ns[j], L) && 0 <= ix2[j] <= |ns[j].keys| && (j > 0 ==> |ns[j].keys| >= 1)
    {
      assert ix2[j] == ix[j];
    }
    forall j | 0 <= j < d - 1
      ensures ns[j + 1] == ns[j].edges[ix2[j]]
    {
      assert ix2[j] == ix[j];
    }
  }

  /** The keys to come above level d do not depend on its index. */
  lemma PendingSet(ns: seq<Tree>, ix: seq<int>, d: int, w: int)
    requires 0 <= d < |ns| && d < |ix|
    ensures Pending(ns, ix[d := w], d - 1) == Pending(ns, ix, d - 1)
  {
    PendingUpdate(ns, ix, d - 1, d, ns[d], w);
    assert ns[d := ns[d]] == ns;
  }

  /** The keys to come at level d do not depend on the levels below it. */
  lemma {:induction false} PendingUpdate(ns: seq<Tree>, ix: seq<int>, d: int, k: int, v: Tree, w: int)
    requires d < k && 0 <= k < |ns| && k < |ix|
    ensures Pending(ns[k := v], ix[k := w], d) == Pending(ns, ix, d)
    decreases d
  {
    if d >= 0 {
      PendingUpdate(ns, ix, d - 1, k, v, w);
    }
  }
}
