/** struct btree (09-btree/btree.c): the root node, the depth and the minimum
    degree L (full_node_splitter), with btree_alloc, btree_contains and its
    _build_route, btree_insert and btree_delete. The tree below the root is a
    value: where the source changes a node in place, the methods put the
    changed node back into its parent on the way up. */
module BTrees {
  import opened BTreeNode
  import opened BTreeShape
  import opened BTreeSearch
  import opened BTreeInsert
  import opened BTreeDelete

  /** Where the pass of btree_delete went on from a node: into edge child of
      the changed node parent, or into the merged node that became the root. */
  datatype Frame = Under(parent: Tree, child: nat) | Lowered

  /** The result below a frame seen from above it. */
  function Apply(f: Frame, x: Removal): Removal
  {
    match f
    case Under(p, j) => if Framed(p) && !p.isLeaf && j < |p.edges| then Below(p, j, x) else x
    case Lowered => Shrunk(x, 1)
  }

  /** The result below a stack of frames seen from above the first. */
  function Wrap(fs: seq<Frame>, x: Removal): Removal
    decreases |fs|
  {
    if fs == [] then x else Wrap(fs[..|fs| - 1], Apply(fs[|fs| - 1], x))
  }

  /** Wrapping in one frame more. */
  lemma WrapPush(fs: seq<Frame>, f: Frame, x: Removal)
    ensures Wrap(fs + [f], x) == Wrap(fs, Apply(f, x))
  {
    assert (fs + [f])[..|fs|] == fs;
  }

  class BTree {
    var root: Tree
    var depth: int
    var L: nat

    /** A well-shaped sorted tree of nodes of at most 2L - 1 keys. */
    predicate Valid()
      reads this
    {
      BTreeShape.Valid(root, depth, L)
    }

    /** The keys in order. */
    function Contents(): seq<int>
      reads this
    {
      Flatten(root)
    }

    /** btree_alloc: an empty leaf root, depth 1. */
    constructor (splitter: nat)
      requires splitter >= 2
      ensures Valid() && Contents() == []
      ensures root == Node([], true, []) && depth == 1 && L == splitter
    {
      root := Node([], true, []);
      depth := 1;
      L := splitter;
    }

    /** _build_route: from the root down through edge index + 1 of every node,
        until an exact match or depth nodes. */
    method BuildRoute(key: int) returns (nodes: seq<Tree>, idx: seq<int>, exact: bool)
      requires Valid()
      ensures exact <==> key in Contents()
      ensures exact <==> Route(root, key, depth) == Present
      ensures !exact ==> Walked(root, depth, key, nodes, idx)
    {
      RouteFinds(root, key, depth);
      DescendStart(root, depth, key);
      nodes, idx := [root], [];
      while |nodes| < depth
        invariant Descending(root, depth, key, nodes, idx)
        decreases depth - |nodes|
      {
        var cur := nodes[|nodes| - 1];
        DescendStep(root, depth, key, nodes, idx);
        var f := FindKey(cur.keys, key);
        if f.exact {
          exact := true;
          return;
        }
        nodes, idx := nodes + [cur.edges[f.index + 1]], idx + [f.index];
      }
      DescendEnd(root, depth, key, nodes, idx);
      var f := FindKey(nodes[|nodes| - 1].keys, key);
      idx := idx + [f.index];
      exact := f.exact;
    }

    /** btree_insert: nothing happens when the route finds the key; otherwise
        the key goes in at the end of the route, and the loop goes back up
        the route, placing the key, or the middle key of a split with its two
        halves, in the node above (and putting changed nodes back into their
        parents); a split root gets a new root and the depth grows by one.
        exited is the exit(-1) of a failed split or insertion. */
    method Insert(key: int) returns (exited: bool)
      requires Valid()
      modifies this
      ensures L == old(L)
      ensures exited <==> TreeInsert(old(root), old(depth), L, key) == Aborted
      ensures exited ==> root == old(root) && depth == old(depth)
      ensures !exited ==> TreeInsert(old(root), old(depth), L, key) == Done(root, depth) && Valid()
      ensures !exited ==> forall x :: x in Contents() <==> x in old(Contents()) || x == key
      ensures L >= 3 ==> !exited
    {
      hide TreeInsert, Ins, Place, Lift;
      InsertCorrect(root, depth, L, key);
      var nodes, idx, exact := BuildRoute(key);
      if exact {
        InsertPresent(root, depth, L, key);
        return false;
      }
      var g := InsertClimb(root, depth, L, key, nodes, idx);
      match g
      case Fit(x) =>
        root := x;
        exited := false;
      case Split(l, m, r) =>
        root := Node([m], false, [l, r]);
        depth := depth + 1;
        exited := false;
      case Abort =>
        exited := true;
    }

    /** btree_delete, with the depth decreased after every merge that empties
        the root: when btree_contains says yes, one pass goes down from the
        root, each iteration rotating or merging so that the node it enters
        can lose a key, and the key is deleted from the node the pass ends
        in; the changed nodes are then put back into their parents. */
    method Delete(key: int)
      requires Valid()
      modifies this
      ensures L == old(L)
      ensures TreeDelete(old(root), old(depth), L, key, true) == Done(root, depth)
      ensures Valid() && Contents() == Remove(old(Contents()), key)
      ensures depth == old(depth) || (depth == old(depth) - 1 && key in old(Contents()))
    {
      hide DelAt, Wrap, Step, TreeDelete;
      var present := Contains(key);
      if !present {
        DeleteCorrect(root, depth, L, key);
        DeleteAbsent(root, depth, L, key, true);
        return;
      }
      var fs, x := DeletePass(root, key, depth, L);
      x := Reattach(fs, x);
      DeleteDone(root, depth, L, key, x);
      root := x.node;
      if x.Reset? {
        depth := depth - x.shrink;
      }
    }

    /** btree_contains. */
    method Contains(key: int) returns (b: bool)
      requires Valid()
      ensures b <==> key in Contents()
    {
      var _, _, exact := BuildRoute(key);
      b := exact;
    }
  }

  /** The upward loop of btree_insert, from the last node of the route: the
      node takes the key, or the middle key and halves of the split below,
      until the root is reached or a level exits. */
  method InsertClimb(root: Tree, depth: int, L: nat, key: int, nodes: seq<Tree>, idx: seq<int>) returns (g: Grown)
    requires L >= 2 && Walked(root, depth, key, nodes, idx) && Route(root, key, depth) != Present
    ensures g.Fit? ==> TreeInsert(root, depth, L, key) == Done(g.node, depth)
    ensures g.Split? ==> TreeInsert(root, depth, L, key) == Done(Node([g.middle], false, [g.left, g.right]), depth + 1)
    ensures g.Abort? ==> TreeInsert(root, depth, L, key) == Aborted
  {
    ClimbStart(root, depth, L, key, nodes, idx);
    var k := depth - 1;
    g := Place(nodes[k], key, Nil, Nil, L);
    while k > 0
      invariant 0 <= k < depth && Up(nodes, idx, k, g, L) == Ins(root, key, depth, L)
      decreases k
    {
      if g.Abort? {
        UpAbort(nodes, idx, k, L);
        return;
      }
      PathStep(nodes, idx, key, k - 1);
      g := Lift(nodes[k - 1], idx[k - 1] + 1, g, L);
      k := k - 1;
    }
  }

  /** The loop of btree_delete: from the root down, each iteration rotating
      or merging at the node it is in (Step) and entering the child the key
      is below, then _delete_key_from_node on the node it ends in. fs are the
      nodes the pass went through, with the edge it took in each, and x what
      is left at the bottom of them. */
  method DeletePass(root: Tree, key: int, depth: int, L: nat) returns (fs: seq<Frame>, x: Removal)
    requires L >= 2 && depth >= 1
    ensures Wrap(fs, x) == DelAt(root, key, depth - 1, L, true)
  {
    hide DelAt, Wrap, Passing, Step;
    ghost var target := DelAt(root, key, depth - 1, L, true);
    PassStart(root, key, depth, L);
    var cur, k := root, key;
    var i, d := 0, depth;
    fs := [];
    var stuck := false;
    x := Exited;
    while !stuck && i < d - 1
      invariant 0 <= i <= d - 1
      invariant !stuck ==> Passing(target, fs, cur, k, d - 1 - i, L)
      invariant stuck ==> Wrap(fs, x) == target
      decreases d - 1 - i, if stuck then 0 else 1
    {
      PassOn(target, fs, cur, k, d - 1 - i, L);
      if !Framed(cur) || cur.isLeaf {
        x, stuck := NullDeref, true;
      } else {
        match Step(cur, k, L)
        case Descend(p, j, k2) =>
          fs, cur, k, i := fs + [Under(p, j)], p.edges[j], k2, i + 1;
        case Emptied(m, _) =>
          fs, cur, d := fs + [Lowered], m, d - 1;
        case Fault =>
          x, stuck := NullDeref, true;
        case Stop =>
          x, stuck := Exited, true;
      }
    }
    if !stuck {
      PassEnd(target, fs, cur, k, L);
      if !Framed(cur) {
        x := NullDeref;
      } else {
        var f := FindKey(cur.keys, k);
        if f.exact {
          var r := DeleteKeyFromNode(cur, k);
          x := Kept(r.node);
        } else {
          x := Exited;
        }
      }
    }
  }

  /** The changed nodes put back into their parents, from the bottom up. */
  method Reattach(fs: seq<Frame>, x: Removal) returns (y: Removal)
    ensures y == Wrap(fs, x)
  {
    y := x;
    var n := |fs|;
    assert fs[..n] == fs;
    while n > 0
      invariant 0 <= n <= |fs| && Wrap(fs[..n], y) == Wrap(fs, x)
      decreases n
    {
      Unwind(fs, n, y, Wrap(fs, x));
      y := Apply(fs[n - 1], y);
      n := n - 1;
    }
    assert fs[..0] == [];
  }

  /** A route of nodes each with the index _find_key_index gives in it, each
      node below the edge index + 1 of the one above. */
  ghost predicate Path(nodes: seq<Tree>, idx: seq<int>, key: int)
  {
    |nodes| >= 1 && |idx| == |nodes| && PathPrefix(nodes, idx[..|nodes| - 1], key) &&
    nodes[|nodes| - 1].Node? && idx[|nodes| - 1] == FindKeyIndex(nodes[|nodes| - 1].keys, key).index
  }

  /** The loop of _build_route after the nodes so far: a route from the
      root, each node shaped for its level, and the rest of the route from
      the last of them decides the lookup. */
  ghost predicate Descending(root: Tree, depth: int, key: int, nodes: seq<Tree>, idx: seq<int>)
  {
    1 <= |nodes| <= depth && nodes[0] == root && PathPrefix(nodes, idx, key) &&
    (forall j :: 0 <= j < |nodes| ==> Shape(nodes[j], depth - j)) &&
    Route(root, key, depth) == Route(nodes[|nodes| - 1], key, depth - |nodes| + 1)
  }

  /** The route starts at the root. */
  lemma DescendStart(root: Tree, depth: int, key: int)
    requires depth >= 1 && Shape(root, depth)
    ensures Descending(root, depth, key, [root], [])
  {
  }

  /** An exact match ends the route; otherwise it goes on one level down,
      through edge index + 1. */
  lemma DescendStep(root: Tree, depth: int, key: int, nodes: seq<Tree>, idx: seq<int>)
    requires Descending(root, depth, key, nodes, idx) && |nodes| < depth
    ensures var n := nodes[|nodes| - 1]; Framed(n) && !n.isLeaf
    ensures var n := nodes[|nodes| - 1]; var f := FindKeyIndex(n.keys, key);
      (f.exact ==> Route(root, key, depth) == Present) &&
      (!f.exact ==> Descending(root, depth, key, nodes + [n.edges[f.index + 1]], idx + [f.index]))
  {
    var n := nodes[|nodes| - 1];
    var f := FindKeyIndex(n.keys, key);
    if !f.exact {
      PathGrow(nodes, idx, key);
      ShapesGrow(nodes, n.edges[f.index + 1], depth);
    }
  }

  /** The last node of the route decides the lookup. */
  lemma DescendEnd(root: Tree, depth: int, key: int, nodes: seq<Tree>, idx: seq<int>)
    requires Descending(root, depth, key, nodes, idx) && |nodes| == depth
    ensures Framed(nodes[|nodes| - 1])
    ensures var f := FindKeyIndex(nodes[|nodes| - 1].keys, key);
      (f.exact <==> Route(root, key, depth) == Present) &&
      (!f.exact ==> Walked(root, depth, key, nodes, idx + [f.index]))
  {
    var f := FindKeyIndex(nodes[|nodes| - 1].keys, key);
    assert (idx + [f.index])[..|nodes| - 1] == idx;
  }

  /** The pass of btree_delete with r iterations still to run from node cur,
      under the frames fs, reaches the result target of the whole pass. */
  ghost predicate Passing(target: Removal, fs: seq<Frame>, cur: Tree, k: int, r: int, L: int)
  {
    L >= 2 && r >= 0 && Wrap(fs, DelAt(cur, k, r, L, true)) == target
  }

  /** The pass starts at the root with no frames. */
  lemma PassStart(root: Tree, key: int, depth: int, L: int)
    requires L >= 2 && depth >= 1
    ensures Passing(DelAt(root, key, depth - 1, L, true), [], root, key, depth - 1, L)
  {
  }

  /** One iteration of the pass: a crash or an exit is the result, or the
      pass goes on below one frame more. */
  lemma PassOn(target: Removal, fs: seq<Frame>, cur: Tree, k: int, r: int, L: int)
    requires Passing(target, fs, cur, k, r, L) && r >= 1
    ensures !Framed(cur) || cur.isLeaf ==> Wrap(fs, NullDeref) == target
    ensures Framed(cur) && !cur.isLeaf ==> var s := Step(cur, k, L);
      (s.Descend? ==> Passing(target, fs + [Under(s.node, s.child)], s.node.edges[s.child], s.key, r - 1, L)) &&
      (s.Emptied? ==> Passing(target, fs + [Lowered], s.merged, k, r - 1, L)) &&
      (s.Fault? ==> Wrap(fs, NullDeref) == target) &&
      (s.Stop? ==> Wrap(fs, Exited) == target)
  {
    if Framed(cur) && !cur.isLeaf {
      PassStep(cur, k, r, L);
      match Step(cur, k, L)
      case Descend(p, j, k2) =>
        WrapPush(fs, Under(p, j), DelAt(p.edges[j], k2, r - 1, L, true));
      case Emptied(m, _) =>
        WrapPush(fs, Lowered, DelAt(m, k, r - 1, L, true));
      case Fault =>
      case Stop =>
    }
  }

  /** The end of the pass: _delete_key_from_node on the node it ends in. */
  lemma PassEnd(target: Removal, fs: seq<Frame>, cur: Tree, k: int, L: int)
    requires Passing(target, fs, cur, k, 0, L)
    ensures !Framed(cur) ==> Wrap(fs, NullDeref) == target
    ensures Framed(cur) && FindKeyIndex(cur.keys, k).exact ==> Wrap(fs, Kept(DeleteKey(cur, k).node)) == target
    ensures Framed(cur) && !FindKeyIndex(cur.keys, k).exact ==> Wrap(fs, Exited) == target
  {
  }

  /** Putting the result back under the innermost frame left. */
  lemma Unwind(fs: seq<Frame>, n: int, x: Removal, target: Removal)
    requires 0 < n <= |fs| && Wrap(fs[..n], x) == target
    ensures Wrap(fs[..n - 1], Apply(fs[n - 1], x)) == target
  {
    assert fs[..n] == fs[..n - 1] + [fs[n - 1]];
    WrapPush(fs[..n - 1], fs[n - 1], x);
  }

  /** The outcome of btree_delete for a key btree_contains finds. */
  lemma DeleteDone(root: Tree, depth: int, L: nat, key: int, x: Removal)
    requires Valid(root, depth, L) && key in Flatten(root)
    requires x == DelAt(root, key, depth - 1, L, true)
    ensures x.Kept? || x.Reset?
    ensures var d := if x.Reset? then depth - x.shrink else depth;
      TreeDelete(root, depth, L, key, true) == Done(x.node, d) &&
      Valid(x.node, d, L) && Flatten(x.node) == Remove(Flatten(root), key) && (d == depth || d == depth - 1)
  {
    DeleteCorrect(root, depth, L, key);
    RouteFinds(root, key, depth);
  }

  /** The route _build_route leaves when it finds no exact match: depth nodes
      from the root down, each shaped for its level. */
  ghost predicate Walked(root: Tree, depth: int, key: int, nodes: seq<Tree>, idx: seq<int>)
  {
    Path(nodes, idx, key) && |nodes| == depth && nodes[0] == root &&
    forall j :: 0 <= j < |nodes| ==> Shape(nodes[j], depth - j)
  }

  /** What the upward loop of btree_insert makes of g, passed up from level
      k of the route: each node above takes it in turn, up to the root. */
  function Up(nodes: seq<Tree>, idx: seq<int>, k: int, g: Grown, L: nat): Grown
    decreases k
  {
    if k <= 0 || k > |nodes| || k > |idx| || L < 2 then g
    else
      var t, c := nodes[k - 1], idx[k - 1] + 1;
      if Framed(t) && !t.isLeaf && 0 <= c <= |t.keys| then Up(nodes, idx, k - 1, Lift(t, c, g, L), L) else Abort
  }

  /** An exit at a level is passed up to the root. */
  lemma {:induction false} UpAbort(nodes: seq<Tree>, idx: seq<int>, k: int, L: nat)
    ensures Up(nodes, idx, k, Abort, L) == Abort
    decreases k
  {
    if k > 0 && k <= |nodes| && k <= |idx| && L >= 2 {
      UpAbort(nodes, idx, k - 1, L);
    }
  }

  /** Passing up what the insertion below level k of the route leaves is the
      insertion below the root. */
  lemma {:induction false} UpIns(nodes: seq<Tree>, idx: seq<int>, key: int, depth: int, L: nat, k: int)
    requires L >= 2 && Path(nodes, idx, key) && |nodes| == depth && 0 <= k < depth
    requires forall j :: 0 <= j < |nodes| ==> Shape(nodes[j], depth - j)
    ensures Up(nodes, idx, k, Ins(nodes[k], key, depth - k, L), L) == Ins(nodes[0], key, depth, L)
    decreases k
  {
    hide *;
    if k > 0 {
      UpLevel(nodes, idx, key, depth, L, k);
      UpIns(nodes, idx, key, depth, L, k - 1);
    } else {
      UpZero(nodes, idx, Ins(nodes[k], key, depth - k, L), L);
    }
  }

  /** Nothing is left to pass up at the root. */
  lemma UpZero(nodes: seq<Tree>, idx: seq<int>, g: Grown, L: nat)
    ensures Up(nodes, idx, 0, g, L) == g
  {
  }

  /** One level of UpIns: the node above level k takes what the insertion
      below level k leaves. */
  lemma UpLevel(nodes: seq<Tree>, idx: seq<int>, key: int, depth: int, L: nat, k: int)
    requires L >= 2 && Path(nodes, idx, key) && |nodes| == depth && 0 < k < depth
    requires forall j :: 0 <= j < |nodes| ==> Shape(nodes[j], depth - j)
    ensures Up(nodes, idx, k, Ins(nodes[k], key, depth - k, L), L) ==
      Up(nodes, idx, k - 1, Ins(nodes[k - 1], key, depth - (k - 1), L), L)
  {
    hide Place, Lift, Ins;
    PathStep(nodes, idx, key, k - 1);
    InsAbove(nodes[k - 1], key, depth - (k - 1), L, idx[k - 1] + 1, nodes[k], Ins(nodes[k], key, depth - k, L));
  }

  /** The loop starts at the last node of the route. */
  lemma ClimbStart(root: Tree, depth: int, L: nat, key: int, nodes: seq<Tree>, idx: seq<int>)
    requires L >= 2 && Walked(root, depth, key, nodes, idx)
    ensures Framed(nodes[depth - 1])
    ensures Up(nodes, idx, depth - 1, Place(nodes[depth - 1], key, Nil, Nil, L), L) == Ins(root, key, depth, L)
  {
    UpIns(nodes, idx, key, depth, L, depth - 1);
    assert depth - (depth - 1) == 1;
  }

  /** Ins at a node above the last level is Lift of Ins at the child the
      route takes. */
  lemma InsAbove(t: Tree, key: int, h: nat, L: nat, c: int, child: Tree, g: Grown)
    requires Shape(t, h) && h >= 2 && L >= 2
    requires c == FindKeyIndex(t.keys, key).index + 1 && child == t.edges[c]
    requires g == Ins(child, key, h - 1, L)
    ensures Lift(t, c, g, L) == Ins(t, key, h, L)
  {
  }

  /** Consecutive nodes of a route, for the unfolding of Ins. */
  lemma PathStep(nodes: seq<Tree>, idx: seq<int>, key: int, j: nat)
    requires Path(nodes, idx, key) && j + 1 < |nodes|
    ensures Framed(nodes[j]) && !nodes[j].isLeaf && idx[j] == FindKeyIndex(nodes[j].keys, key).index
    ensures nodes[j + 1] == nodes[j].edges[idx[j] + 1]
  {
    assert idx[..|nodes| - 1][j] == idx[j];
  }

  /** The nodes of a route stand one level lower each. */
  lemma ShapesGrow(nodes: seq<Tree>, x: Tree, depth: int)
    requires depth - |nodes| >= 0
    requires forall j :: 0 <= j < |nodes| ==> Shape(nodes[j], depth - j)
    requires Shape(x, depth - |nodes|)
    ensures forall j :: 0 <= j < |nodes| + 1 ==> Shape((nodes + [x])[j], depth - j)
  {
    forall j | 0 <= j < |nodes| + 1 ensures Shape((nodes + [x])[j], depth - j) {
      if j < |nodes| {
        assert (nodes + [x])[j] == nodes[j];
      }
    }
  }

  /** One node more on the route. */
  lemma PathGrow(nodes: seq<Tree>, idx: seq<int>, key: int)
    requires PathPrefix(nodes, idx, key)
    requires var n := nodes[|nodes| - 1]; Framed(n) && !n.isLeaf
    ensures var n := nodes[|nodes| - 1]; var i := FindKeyIndex(n.keys, key).index;
      PathPrefix(nodes + [n.edges[i + 1]], idx + [i], key)
  {
    var n := nodes[|nodes| - 1];
    var i := FindKeyIndex(n.keys, key).index;
    var ns, xs := nodes + [n.edges[i + 1]], idx + [i];
    forall k | 0 <= k < |xs|
      ensures Framed(ns[k]) && !ns[k].isLeaf && xs[k] == FindKeyIndex(ns[k].keys, key).index &&
        ns[k + 1] == ns[k].edges[xs[k] + 1]
    {
      if k < |idx| {
        assert ns[k] == nodes[k] && ns[k + 1] == nodes[k + 1] && xs[k] == idx[k];
      }
    }
  }

  /** The route but the index in its last node. */
  ghost predicate PathPrefix(nodes: seq<Tree>, idx: seq<int>, key: int)
  {
    |idx| + 1 == |nodes| &&
    forall k :: 0 <= k < |idx| ==>
      Framed(nodes[k]) && !nodes[k].isLeaf && idx[k] == FindKeyIndex(nodes[k].keys, key).index &&
      nodes[k + 1] == nodes[k].edges[idx[k] + 1]
  }
}
