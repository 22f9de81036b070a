/** Deleting a key (btree_delete with _rotate_right, _rotate_left and _merge,
    09-btree/btree.c): one pass from the root down, which makes sure every
    node it enters below the root has more than the minimum of L - 1 keys,
    by rotating a key in from a sibling or merging with one, and deletes the
    key from the leaf it ends in. A key found in an inner node is first
    replaced by its predecessor or successor, which is then deleted below.

    The source has a flaw here: when the merge in the exact-match branch
    empties the root, the tree depth is not decreased, so the pass runs one
    level too deep and dereferences the NULL edges of a leaf. The functions
    take a flag: fix = false follows the source as written, fix = true
    decreases the depth there as the other merge branch does. */
module BTreeDelete {
  import opened BTreeNode
  import opened BTreeShape
  import opened BTreeSearch
  import opened BTreeInsert

  datatype Option<T> = None | Some(value: T)

  // ---------------------------------------------------------------------------
  // Height, the measure the pass decreases when it stays at a level

  function Height(t: Tree): nat
    decreases t, 1
  {
    if t.Nil? then 0 else 1 + Tallest(t, |t.edges|)
  }

  /** The largest height among the first k edges of t. */
  function Tallest(t: Tree, k: nat): nat
    requires t.Node? && k <= |t.edges|
    decreases t, 0, k
  {
    if k == 0 then 0
    else
      var a, b := Height(t.edges[k - 1]), Tallest(t, k - 1);
      if a < b then b else a
  }

  lemma {:induction false} TallestAtLeast(t: Tree, k: nat, j: nat)
    requires t.Node? && j < k <= |t.edges|
    ensures Height(t.edges[j]) <= Tallest(t, k)
    decreases k
  {
    if j < k - 1 {
      TallestAtLeast(t, k - 1, j);
    }
  }

  lemma {:induction false} TallestAtMost(t: Tree, k: nat, m: nat)
    requires t.Node? && k <= |t.edges|
    requires forall j :: 0 <= j < k ==> Height(t.edges[j]) <= m
    ensures Tallest(t, k) <= m
    decreases k
  {
    if k > 0 {
      TallestAtMost(t, k - 1, m);
    }
  }

  /** Joining two neighbouring children gives a node lower than their parent. */
  lemma JoinLower(n: Tree, a: nat, k: int)
    requires Framed(n) && !n.isLeaf && a < |n.keys| && JoinOk(Pair(n.edges[a], n.edges[a + 1], k))
    ensures Height(JoinNodes(Pair(n.edges[a], n.edges[a + 1], k))) < Height(n)
  {
    var l, r := n.edges[a], n.edges[a + 1];
    var m := JoinNodes(Pair(l, r, k));
    TallestAtLeast(n, |n.edges|, a);
    TallestAtLeast(n, |n.edges|, a + 1);
    var top := if Height(l) < Height(r) then Height(r) - 1 else Height(l) - 1;
    forall j | 0 <= j < |m.edges| ensures Height(m.edges[j]) <= top {
      if j < |l.edges| {
        assert m.edges[j] == l.edges[j];
        TallestAtLeast(l, |l.edges|, j);
      } else {
        assert m.edges[j] == r.edges[j - |l.edges|];
        TallestAtLeast(r, |r.edges|, j - |l.edges|);
      }
    }
    TallestAtMost(m, |m.edges|, top);
  }

  // ---------------------------------------------------------------------------
  // Predecessor and successor

  /** The key the source reads after following the last edges down to a leaf:
      None for a NULL edge on the way or a leaf without keys. */
  function Rightmost(t: Tree): Option<int>
    decreases t
  {
    if !Framed(t) then None
    else if !t.isLeaf then Rightmost(t.edges[|t.keys|])
    else if t.keys == [] then None
    else Some(t.keys[|t.keys| - 1])
  }

  /** The key the source reads after following edge 0 down to a leaf. */
  function Leftmost(t: Tree): Option<int>
    decreases t
  {
    if !Framed(t) then None
    else if !t.isLeaf then Leftmost(t.edges[0])
    else if t.keys == [] then None
    else Some(t.keys[0])
  }

  /** In a shaped, occupied tree with a key the walk down the last edges finds
      the largest key. */
  lemma {:induction false} RightmostLast(t: Tree, h: nat, L: nat)
    requires Shape(t, h) && Occupied(t, L) && |t.keys| >= 1
    ensures Flatten(t) != [] && Rightmost(t) == Some(Flatten(t)[|Flatten(t)| - 1])
    decreases t
  {
    if !t.isLeaf {
      var e := t.edges[|t.keys|];
      RightmostLast(e, h - 1, L);
      assert Flatten(t) == Before(t, |t.keys|) + Flatten(e);
    }
  }

  /** ... and the walk down edge 0 the smallest. */
  lemma {:induction false} LeftmostFirst(t: Tree, h: nat, L: nat)
    requires Shape(t, h) && Occupied(t, L) && |t.keys| >= 1
    ensures Flatten(t) != [] && Leftmost(t) == Some(Flatten(t)[0])
    decreases t
  {
    if !t.isLeaf {
      var e := t.edges[0];
      LeftmostFirst(e, h - 1, L);
      Around(t, 0);
      assert Flatten(t) == Flatten(e) + After(t, 0);
    }
  }

  // ---------------------------------------------------------------------------
  // _rotate_right, _rotate_left and _merge on the children i and i + 1 of n

  /** The last key of edge i moves up to keys[i], whose old key moves down to
      the front of edge i + 1 with the last edge of edge i; None where the
      insertion exits. */
  function RotateRight(n: Tree, i: nat): (p: Option<Tree>)
    requires Framed(n) && !n.isLeaf && i < |n.keys|
    requires Framed(n.edges[i]) && |n.edges[i].keys| >= 1 && Framed(n.edges[i + 1])
    ensures p.Some? ==> Framed(p.value) && !p.value.isLeaf && |p.value.keys| == |n.keys|
  {
    var left, right := n.edges[i], n.edges[i + 1];
    var nm := left.keys[|left.keys| - 1];
    var om := n.keys[i];
    if FindKeyIndex(right.keys, om).exact then None
    else
      var right' := PushFirst(right, om, DeleteKey(left, nm).rightOrphan);
      Some(n.(keys := n.keys[i := nm], edges := n.edges[i := DropLast(left)][i + 1 := right']))
  }

  /** A node after _rotate_right deleted its last key: the edge left of that
      key stays as the last edge. */
  function DropLast(t: Tree): (u: Tree)
    requires Framed(t) && |t.keys| >= 1
    ensures Framed(u) && u.isLeaf == t.isLeaf && |u.keys| == |t.keys| - 1
  {
    var d := DeleteKey(t, t.keys[|t.keys| - 1]);
    if t.isLeaf then d.node else d.node.(edges := d.node.edges[|d.node.keys| := d.leftOrphan])
  }

  /** A node after _rotate_right inserted a key in front: e becomes its first
      edge and the old first edge its second. */
  function PushFirst(t: Tree, k: int, e: Tree): (u: Tree)
    requires Framed(t) && !FindKeyIndex(t.keys, k).exact
    ensures Framed(u) && u.isLeaf == t.isLeaf && |u.keys| == |t.keys| + 1
  {
    var r := InsertKey(t, k);
    if t.isLeaf then r.node else r.node.(edges := r.node.edges[0 := e][1 := r.orphan])
  }

  /** The first key of edge i + 1 moves up to keys[i], whose old key moves
      down to the end of edge i with the first edge of edge i + 1. */
  function RotateLeft(n: Tree, i: nat): (p: Option<Tree>)
    requires Framed(n) && !n.isLeaf && i < |n.keys|
    requires Framed(n.edges[i]) && Framed(n.edges[i + 1]) && |n.edges[i + 1].keys| >= 1
    ensures p.Some? ==> Framed(p.value) && !p.value.isLeaf && |p.value.keys| == |n.keys|
  {
    var left, right := n.edges[i], n.edges[i + 1];
    var nm := right.keys[0];
    var om := n.keys[i];
    FirstKeyFound(right.keys);
    if FindKeyIndex(left.keys, om).exact then None
    else
      var left' := PushLast(left, om, DeleteKey(right, nm).leftOrphan);
      Some(n.(keys := n.keys[i := nm], edges := n.edges[i := left'][i + 1 := DropFirst(right)]))
  }

  lemma Group4<T>(a: seq<T>, b: seq<T>, c: seq<T>, d: seq<T>)
    ensures a + b + (c + d) == a + b + c + d
  {
  }

  /** The first key of a node is found at index 0. */
  lemma FirstKeyFound(keys: seq<int>)
    requires |keys| >= 1
    ensures FindKeyIndex(keys, keys[0]) == Found(0, true)
  {
  }

  /** A node after _rotate_left deleted its first key: the edge right of that
      key becomes the first edge. */
  function DropFirst(t: Tree): (u: Tree)
    requires Framed(t) && |t.keys| >= 1
    ensures Framed(u) && u.isLeaf == t.isLeaf && |u.keys| == |t.keys| - 1
  {
    FirstKeyFound(t.keys);
    var d := DeleteKey(t, t.keys[0]);
    if t.isLeaf then d.node else d.node.(edges := d.node.edges[0 := d.rightOrphan])
  }

  /** A node after _rotate_left inserted a key: the orphan goes back before
      it and e after it, as the last edge. */
  function PushLast(t: Tree, k: int, e: Tree): (u: Tree)
    requires Framed(t) && !FindKeyIndex(t.keys, k).exact
    ensures Framed(u) && u.isLeaf == t.isLeaf && |u.keys| == |t.keys| + 1
  {
    var r := InsertKey(t, k);
    var size := |r.node.keys|;
    if t.isLeaf then r.node else r.node.(edges := r.node.edges[size := e][size - 1 := r.orphan])
  }

  /** The parent after _merge, the merged node and the edge it went to; or a
      NULL child, or the exit of _join_nodes. */
  datatype Joined = Joined(parent: Tree, merged: Tree, at: nat) | JoinCrash | JoinAbort

  /** keys[i] leaves n and joins edges i and i + 1 into one node at edge i. */
  function Merge(n: Tree, i: nat): (j: Joined)
    requires Framed(n) && !n.isLeaf && i < |n.keys|
    ensures j.Joined? ==> Framed(j.parent) && !j.parent.isLeaf && |j.parent.keys| == |n.keys| - 1
    ensures j.Joined? ==> j.at < |j.parent.edges| && j.parent.edges[j.at] == j.merged
    ensures j.Joined? ==> Height(j.merged) < Height(n)
  {
    var left, right, mk := n.edges[i], n.edges[i + 1], n.keys[i];
    var d := DeleteKey(n, mk);
    if !Framed(left) || !Framed(right) then JoinCrash
    else if left.isLeaf != right.isLeaf then JoinAbort
    else
      var m := JoinNodes(Pair(left, right, mk));
      JoinLower(n, i, mk);
      Joined(d.node.(edges := d.node.edges[d.formerIndex := m]), m, d.formerIndex)
  }

  // ---------------------------------------------------------------------------
  // One iteration of the loop of btree_delete

  /** Where an iteration leaves the pass: at edge child of the changed node
      with the key to delete below it, at a merged node after the merge
      emptied the node (exact tells which branch merged), at a NULL
      dereference, or at an exit(-1). */
  datatype Stepped = Descend(node: Tree, child: nat, key: int) | Emptied(merged: Tree, exact: bool) | Fault | Stop

  function Step(n: Tree, key: int, L: int): (s: Stepped)
    requires Framed(n) && !n.isLeaf && L >= 2
    ensures s.Descend? ==> Framed(s.node) && !s.node.isLeaf && s.child < |s.node.edges|
    ensures s.Emptied? ==> Height(s.merged) < Height(n)
  {
    var f := FindKeyIndex(n.keys, key);
    if f.exact then AtKey(n, key, f.index, L) else Past(n, key, f.index, L)
  }

  /** The key is below edge i + 1: enter it if it has more than L - 1 keys;
      otherwise first rotate a key in from the left or the right sibling,
      whichever has more than L - 1 keys, or else merge it with the left
      sibling, or with the right one when there is no left one. */
  function Past(n: Tree, key: int, i: int, L: int): (s: Stepped)
    requires Framed(n) && !n.isLeaf && -1 <= i < |n.keys| && L >= 2
    ensures s.Descend? ==> Framed(s.node) && !s.node.isLeaf && s.child < |s.node.edges|
    ensures s.Emptied? ==> Height(s.merged) < Height(n)
  {
    var next := n.edges[i + 1];
    var left := if i >= 0 then n.edges[i] else Nil;
    var right := if i < |n.keys| - 1 then n.edges[i + 2] else Nil;
    if !Framed(next) then Fault
    else if |next.keys| > L - 1 then Descend(n, i + 1, key)
    else if left != Nil && !Framed(left) then Fault
    else if left != Nil && |left.keys| > L - 1 then Rotated(RotateRight(n, i), i + 1, key)
    else if right != Nil && !Framed(right) then Fault
    else if right != Nil && |right.keys| > L - 1 then Rotated(RotateLeft(n, i + 1), i + 1, key)
    else if left != Nil then Merged(Merge(n, i), key, false)
    else if right != Nil then Merged(Merge(n, i + 1), key, false)
    else Fault
  }

  /** The key is keys[i]: replace it by its predecessor and delete that from
      edge i if edge i has more than L - 1 keys, else by its successor from
      edge i + 1 if that one has, else merge the two around it. */
  function AtKey(n: Tree, key: int, i: int, L: int): (s: Stepped)
    requires Framed(n) && !n.isLeaf && 0 <= i < |n.keys| && L >= 2
    ensures s.Descend? ==> Framed(s.node) && !s.node.isLeaf && s.child < |s.node.edges|
    ensures s.Emptied? ==> Height(s.merged) < Height(n)
  {
    var left, right := n.edges[i], n.edges[i + 1];
    if !Framed(left) then Fault
    else if |left.keys| > L - 1 then
      match Rightmost(left)
      case None => Fault
      case Some(k) => Descend(n.(keys := n.keys[i := k]), i, k)
    else if !Framed(right) then Fault
    else if |right.keys| > L - 1 then
      match Leftmost(right)
      case None => Fault
      case Some(k) => Descend(n.(keys := n.keys[i := k]), i + 1, k)
    else Merged(Merge(n, i), key, true)
  }

  function Rotated(p: Option<Tree>, j: nat, key: int): (s: Stepped)
    requires p.Some? ==> Framed(p.value) && !p.value.isLeaf && j < |p.value.edges|
    ensures s.Descend? ==> Framed(s.node) && !s.node.isLeaf && s.child < |s.node.edges|
    ensures !s.Emptied?
  {
    match p
    case None => Stop
    case Some(x) => Descend(x, j, key)
  }

  /** After a merge the pass goes on in the merged node; when the merge took
      the node's last key, the merged node becomes the root. */
  function Merged(j: Joined, key: int, exact: bool): (s: Stepped)
    requires j.Joined? ==> Framed(j.parent) && !j.parent.isLeaf && j.at < |j.parent.edges|
    ensures s.Descend? ==> Framed(s.node) && !s.node.isLeaf && s.child < |s.node.edges|
    ensures s.Emptied? ==> j.Joined? && s.merged == j.merged
  {
    match j
    case JoinCrash => Fault
    case JoinAbort => Stop
    case Joined(p, m, at) => if |p.keys| == 0 then Emptied(m, exact) else Descend(p, at, key)
  }

  // ---------------------------------------------------------------------------
  // The whole pass

  /** The subtree after the pass, or the node that became the root with the
      number of levels the depth went down by, or a crash, or an exit. */
  datatype Removal = Kept(node: Tree) | Reset(node: Tree, shrink: nat) | NullDeref | Exited

  /** The pass from node n with r iterations of the loop still to run, and
      then _delete_key_from_node on the node it ends in. */
  function DelAt(n: Tree, key: int, r: nat, L: int, fix: bool): Removal
    requires L >= 2
    decreases r, Height(n)
  {
    if !Framed(n) then NullDeref
    else if r == 0 then
      if FindKeyIndex(n.keys, key).exact then Kept(DeleteKey(n, key).node) else Exited
    else if n.isLeaf then NullDeref
    else match Step(n, key, L)
      case Fault => NullDeref
      case Stop => Exited
      case Descend(p, j, k) => Below(p, j, DelAt(p.edges[j], k, r - 1, L, fix))
      case Emptied(m, exact) =>
        var s := if exact && !fix then 0 else 1;
        Shrunk(DelAt(m, key, r - s, L, fix), s)
  }

  /** A subtree's result put back at edge j of the node above it. */
  function Below(p: Tree, j: nat, x: Removal): Removal
    requires Framed(p) && !p.isLeaf && j < |p.edges|
  {
    match x
    case Kept(y) => Kept(Replace(p, j, y))
    case _ => x
  }

  /** The result of the pass from a node that became the root. */
  function Shrunk(x: Removal, s: nat): Removal
  {
    match x
    case Kept(y) => Reset(y, s)
    case Reset(y, t) => Reset(y, s + t)
    case _ => x
  }

  /** btree_delete: nothing happens when btree_contains says no. */
  function TreeDelete(root: Tree, depth: nat, L: int, key: int, fix: bool): Outcome
    requires depth >= 1 && L >= 2
  {
    match Route(root, key, depth)
    case Crash => Crashed
    case Absent => Done(root, depth)
    case Present =>
      match DelAt(root, key, depth - 1, L, fix)
      case Kept(x) => Done(x, depth)
      case Reset(x, s) => Done(x, depth - s)
      case NullDeref => Crashed
      case Exited => Aborted
  }

  // ---------------------------------------------------------------------------
  // What an iteration keeps

  /** n without keys[i] and edge i + 1: the node both sides of a rotation or
      merge at keys[i] expand. */
  function Squeeze(n: Tree, i: nat): (q: Tree)
    requires Framed(n) && !n.isLeaf && i < |n.keys|
    ensures Framed(q) && !q.isLeaf && |q.keys| == |n.keys| - 1
  {
    Node(n.keys[..i] + n.keys[i + 1..], false, n.edges[..i + 1] + n.edges[i + 2..])
  }

  /** Changing keys[i] and the edges around it is expanding the squeezed node. */
  lemma TwoEdges(n: Tree, i: nat, a: Tree, m: int, b: Tree)
    requires Framed(n) && !n.isLeaf && i < |n.keys|
    ensures n.(keys := n.keys[i := m], edges := n.edges[i := a][i + 1 := b]) == Expand(Squeeze(n, i), i, a, m, b)
  {
    var q := Squeeze(n, i);
    var e := Expand(q, i, a, m, b);
    assert e.keys == n.keys[i := m] by {
      assert q.keys[..i] == n.keys[..i] && q.keys[i..] == n.keys[i + 1..];
    }
    assert e.edges == n.edges[i := a][i + 1 := b] by {
      assert q.edges[..i] == n.edges[..i] && q.edges[i + 1..] == n.edges[i + 2..];
    }
  }

  /** The node itself is the squeezed node expanded with what was taken out. */
  lemma Unsqueeze(n: Tree, i: nat)
    requires Framed(n) && !n.isLeaf && i < |n.keys|
    ensures n == Expand(Squeeze(n, i), i, n.edges[i], n.keys[i], n.edges[i + 1])
  {
    TwoEdges(n, i, n.edges[i], n.keys[i], n.edges[i + 1]);
    assert n.keys[i := n.keys[i]] == n.keys;
    assert n.edges[i := n.edges[i]][i + 1 := n.edges[i + 1]] == n.edges;
  }

  lemma SqueezeShape(n: Tree, i: nat, h: nat, L: nat)
    requires Shape(n, h) && !n.isLeaf && i < |n.keys| && EdgesOccupied(n, L)
    ensures Shape(Squeeze(n, i), h) && EdgesOccupied(Squeeze(n, i), L)
  {
    var q := Squeeze(n, i);
    forall j | 0 <= j < |q.edges| ensures q.edges[j] == n.edges[if j <= i then j else j + 1] {
    }
  }

  /** What the pass needs from an iteration that leaves it at a child: the
      changed node keeps its shape and a key, the child has at least two keys
      and holds the key to delete, and deleting that key from the child is
      deleting the original key from the node. */
  ghost predicate Descends(s: Stepped, n: Tree, key: int, h: nat, L: nat)
  {
    n.Node? && s.Descend? && Shape(s.node, h) && Occupied(s.node, L) && !s.node.isLeaf && s.child < |s.node.edges| &&
    |s.node.keys| >= 1 && |s.node.keys| + 1 >= |n.keys| &&
    var c := s.node.edges[s.child];
    c.Node? && |c.keys| >= 2 && Sorted(Flatten(c)) && s.key in Flatten(c) &&
    Before(s.node, s.child) + Remove(Flatten(c), s.key) + After(s.node, s.child) == Remove(Flatten(n), key)
  }

  /** ... or one whose merge emptied a node with a single key. */
  ghost predicate Empties(s: Stepped, n: Tree, h: nat, L: nat)
  {
    n.Node? && s.Emptied? && h >= 1 && |n.keys| == 1 && Shape(s.merged, h - 1) && Occupied(s.merged, L) &&
    |s.merged.keys| >= 2 && Flatten(s.merged) == Flatten(n)
  }

  /** An iteration that rearranges the node without changing its in-order
      keys and enters a child holding the key. */
  lemma Preserving(n: Tree, p: Tree, j: nat, key: int, h: nat, L: nat)
    requires Shape(p, h) && Occupied(p, L) && !p.isLeaf && j < |p.edges|
    requires n.Node? && |p.keys| >= 1 && |p.keys| + 1 >= |n.keys|
    requires Sorted(Flatten(n)) && Flatten(p) == Flatten(n)
    requires p.edges[j].Node? && |p.edges[j].keys| >= 2 && key in Flatten(p.edges[j])
    ensures Descends(Descend(p, j, key), n, key, h, L)
  {
    var c := p.edges[j];
    Around(p, j);
    SortedParts(Before(p, j), Flatten(c), After(p, j));
    SortedOnce(Before(p, j), Flatten(c), After(p, j), key);
    RemoveMiddle(Before(p, j), Flatten(c), After(p, j), key);
  }

  // ---------------------------------------------------------------------------
  // The rotations keep the in-order keys

  /** Expanding in front of edge 0 with that edge on the right. */
  lemma ExpandFirstFlatten(u: Tree, l: Tree, k: int)
    requires Framed(u) && !u.isLeaf
    ensures Flatten(Expand(u, 0, l, k, u.edges[0])) == Flatten(l) + [k] + Flatten(u)
  {
    var a, b := After(u, 0), Before(u, 0);
    assert b == [];
    assert b + Flatten(l) == Flatten(l);
    assert b + Flatten(u.edges[0]) == Flatten(u.edges[0]);
    FlattenExpand(u, 0, l, k, u.edges[0]);
    Around(u, 0);
    Group4(Flatten(l), [k], Flatten(u.edges[0]), a);
  }

  /** Expanding behind the last edge with that edge on the left. */
  lemma ExpandLastFlatten(u: Tree, k: int, r: Tree)
    requires Framed(u) && !u.isLeaf
    ensures Flatten(Expand(u, |u.keys|, u.edges[|u.keys|], k, r)) == Flatten(u) + [k] + Flatten(r)
  {
    var s := |u.keys|;
    assert After(u, s) == [];
    FlattenExpand(u, s, u.edges[s], k, r);
  }

  /** A node is its first edge and first key in front of a node holding the
      rest. */
  lemma PrependFlatten(t: Tree, u: Tree)
    requires Framed(t) && Framed(u) && t.isLeaf == u.isLeaf && |t.keys| >= 1
    requires u.keys == t.keys[1..] && (!t.isLeaf ==> u.edges == t.edges[1..])
    ensures Flatten(t) == (if t.isLeaf then [] else Flatten(t.edges[0])) + [t.keys[0]] + Flatten(u)
  {
    if !t.isLeaf {
      var l, k := t.edges[0], t.keys[0];
      assert t == Expand(u, 0, l, k, u.edges[0]);
      ExpandFirstFlatten(u, l, k);
    } else {
      assert t.keys == [] + [t.keys[0]] + u.keys;
    }
  }

  /** A node is a node holding all but its last key and last edge, then that
      key and edge. */
  lemma AppendFlatten(t: Tree, u: Tree)
    requires Framed(t) && Framed(u) && t.isLeaf == u.isLeaf && |t.keys| >= 1
    requires var s := |t.keys| - 1; u.keys == t.keys[..s] && (!t.isLeaf ==> u.edges == t.edges[..s + 1])
    ensures var s := |t.keys| - 1;
      Flatten(t) == Flatten(u) + [t.keys[s]] + (if t.isLeaf then [] else Flatten(t.edges[s + 1]))
  {
    var s := |t.keys| - 1;
    if !t.isLeaf {
      var k, r := t.keys[s], t.edges[s + 1];
      assert t == Expand(u, s, u.edges[s], k, r) by {
        assert u.keys[..s] == u.keys && u.keys[s..] == [];
        assert t.keys == u.keys + [k];
        assert u.edges[..s] + [u.edges[s], r] + u.edges[s + 1..] == t.edges;
      }
      ExpandLastFlatten(u, k, r);
    } else {
      assert t.keys == u.keys + [t.keys[s]] + [];
    }
  }

  /** A node that is key k and edge e in front of node t. */
  lemma PrependedFlatten(u: Tree, t: Tree, k: int, e: Tree)
    requires Framed(u) && Framed(t) && u.isLeaf == t.isLeaf
    requires u.keys == [k] + t.keys && (!t.isLeaf ==> u.edges == [e] + t.edges)
    ensures Flatten(u) == (if t.isLeaf then [] else Flatten(e)) + [k] + Flatten(t)
  {
    assert u.keys[1..] == t.keys;
    if !t.isLeaf {
      assert u.edges[1..] == t.edges && u.edges[0] == e;
    }
    PrependFlatten(u, t);
  }

  /** A node that is node t with key k and edge e behind it. */
  lemma AppendedFlatten(u: Tree, t: Tree, k: int, e: Tree)
    requires Framed(u) && Framed(t) && u.isLeaf == t.isLeaf
    requires u.keys == t.keys + [k] && (!t.isLeaf ==> u.edges == t.edges + [e])
    ensures Flatten(u) == Flatten(t) + [k] + (if t.isLeaf then [] else Flatten(e))
  {
    var s := |t.keys|;
    assert u.keys[..s] == t.keys && u.keys[s] == k;
    if !t.isLeaf {
      assert u.edges[..s + 1] == t.edges && u.edges[s + 1] == e;
    }
    AppendFlatten(u, t);
  }

  /** The key a rotation takes from a sorted node is found where it is. */
  lemma LastKeyFound(keys: seq<int>)
    requires Sorted(keys) && |keys| >= 1
    ensures FindKeyIndex(keys, keys[|keys| - 1]) == Found(|keys| - 1, true)
  {
    FindKeyIndexSorted(keys, keys[|keys| - 1]);
  }

  /** Taking the last key off a sorted node keeps the keys and edges before it. */
  lemma DropLastParts(t: Tree)
    requires Framed(t) && |t.keys| >= 1 && FindKeyIndex(t.keys, t.keys[|t.keys| - 1]) == Found(|t.keys| - 1, true)
    ensures var s := |t.keys| - 1; var u := DropLast(t);
      u.keys == t.keys[..s] && (!t.isLeaf ==> u.edges == t.edges[..s + 1])
  {
  }

  lemma RightOrphanOfLast(t: Tree)
    requires Framed(t) && |t.keys| >= 1 && FindKeyIndex(t.keys, t.keys[|t.keys| - 1]) == Found(|t.keys| - 1, true)
    ensures DeleteKey(t, t.keys[|t.keys| - 1]).rightOrphan == if t.isLeaf then Nil else t.edges[|t.keys|]
  {
  }

  lemma DropLastShape(t: Tree, h: nat, L: nat)
    requires Shape(t, h) && EdgesOccupied(t, L) && |t.keys| >= 1
    requires FindKeyIndex(t.keys, t.keys[|t.keys| - 1]) == Found(|t.keys| - 1, true)
    ensures Shape(DropLast(t), h) && EdgesOccupied(DropLast(t), L)
  {
    var u := DropLast(t);
    assert forall j :: 0 <= j < |u.edges| ==> u.edges[j] == t.edges[j];
  }

  /** Taking the first key off a node keeps the keys and edges after it. */
  lemma DropFirstParts(t: Tree)
    requires Framed(t) && |t.keys| >= 1
    ensures var u := DropFirst(t); u.keys == t.keys[1..] && (!t.isLeaf ==> u.edges == t.edges[1..])
  {
    FirstKeyFound(t.keys);
  }

  lemma LeftOrphanOfFirst(t: Tree)
    requires Framed(t) && |t.keys| >= 1 && FindKeyIndex(t.keys, t.keys[0]) == Found(0, true)
    ensures DeleteKey(t, t.keys[0]).leftOrphan == if t.isLeaf then Nil else t.edges[0]
  {
  }

  lemma DropFirstShape(t: Tree, h: nat, L: nat)
    requires Shape(t, h) && EdgesOccupied(t, L) && |t.keys| >= 1
    ensures Shape(DropFirst(t), h) && EdgesOccupied(DropFirst(t), L)
  {
    var u := DropFirst(t);
    assert forall j :: 0 <= j < |u.edges| ==> u.edges[j] == t.edges[j + 1];
  }

  /** Putting a key below all of a node's keys in front, with edge e. */
  lemma PushFirstParts(t: Tree, k: int, e: Tree)
    requires Framed(t) && FindKeyIndex(t.keys, k) == Found(-1, false)
    ensures var u := PushFirst(t, k, e); u.keys == [k] + t.keys && (!t.isLeaf ==> u.edges == [e] + t.edges)
  {
    if !t.isLeaf {
      GapFilled(t.edges, 0, Nil, e, t.edges[0]);
      assert [e, t.edges[0]] + t.edges[1..] == [e] + t.edges;
    }
  }

  /** Appending a key above all of a node's keys, with edge e behind it. */
  lemma PushLastParts(t: Tree, k: int, e: Tree)
    requires Framed(t) && FindKeyIndex(t.keys, k) == Found(|t.keys| - 1, false)
    ensures var u := PushLast(t, k, e); u.keys == t.keys + [k] && (!t.isLeaf ==> u.edges == t.edges + [e])
  {
    var s := |t.keys|;
    assert t.keys[..s] == t.keys;
    if !t.isLeaf {
      var r := InsertKey(t, k);
      assert r.node.edges[s + 1 := e][s := r.orphan] == r.node.edges[s := r.orphan][s + 1 := e];
      GapFilled(t.edges, s, Nil, t.edges[s], e);
      assert t.edges[..s] + [t.edges[s], e] == t.edges + [e];
    }
  }

  /** A node that got one more edge in front or behind keeps its shape. */
  lemma PushedShape(t: Tree, u: Tree, e: Tree, h: nat, L: nat)
    requires Shape(t, h) && EdgesOccupied(t, L) && Framed(u) && u.isLeaf == t.isLeaf
    requires !t.isLeaf ==> Shape(e, h - 1) && Occupied(e, L) && |e.keys| >= 1
    requires !t.isLeaf ==> u.edges == [e] + t.edges || u.edges == t.edges + [e]
    ensures Shape(u, h) && EdgesOccupied(u, L)
  {
    if !t.isLeaf {
      if u.edges == [e] + t.edges {
        assert forall j :: 1 <= j < |u.edges| ==> u.edges[j] == t.edges[j - 1];
      } else {
        assert forall j :: 0 <= j < |t.edges| ==> u.edges[j] == t.edges[j];
      }
    }
  }

  // ---------------------------------------------------------------------------
  // The rotations and the merge on a well-shaped sorted node

  /** Every value of s is above k. */
  predicate AllAbove(k: int, s: seq<int>)
  {
    forall j :: 0 <= j < |s| ==> k < s[j]
  }

  /** Every value of s is below k. */
  predicate AllBelow(s: seq<int>, k: int)
  {
    forall j :: 0 <= j < |s| ==> s[j] < k
  }

  /** Every value of a is in b. */
  predicate Within(a: seq<int>, b: seq<int>)
  {
    forall x :: x in a ==> x in b
  }

  /** In a sorted node the keys below edge i are under keys[i] ... */
  lemma LeftOfKey(n: Tree, i: nat)
    requires Framed(n) && !n.isLeaf && i < |n.keys| && Sorted(Flatten(n))
    ensures Sorted(Flatten(n.edges[i])) && AllBelow(Flatten(n.edges[i]), n.keys[i])
  {
    Around(n, i);
    var a, m := After(n, i), Flatten(n.edges[i]);
    assert a[0] == n.keys[i];
    SortedParts(Before(n, i), m, a);
    forall j | 0 <= j < |m| ensures m[j] < n.keys[i] {
      assert m[j] in m && n.keys[i] in a;
    }
  }

  /** ... and those below edge i + 1 over it. */
  lemma RightOfKey(n: Tree, i: nat)
    requires Framed(n) && !n.isLeaf && i < |n.keys| && Sorted(Flatten(n))
    ensures Sorted(Flatten(n.edges[i + 1])) && AllAbove(n.keys[i], Flatten(n.edges[i + 1]))
  {
    Around(n, i + 1);
    var b, m := Before(n, i + 1), Flatten(n.edges[i + 1]);
    assert b[|b| - 1] == n.keys[i];
    SortedParts(b, m, After(n, i + 1));
    forall j | 0 <= j < |m| ensures n.keys[i] < m[j] {
      assert m[j] in m && n.keys[i] in b;
    }
  }

  /** Regrouping a concatenation around a middle part. */
  lemma Regroup7<T>(b: seq<T>, x: seq<T>, y: seq<T>, z: seq<T>, u: seq<T>, v: seq<T>, a: seq<T>)
    ensures b + (x + y + z) + u + v + a == b + x + y + (z + u + v) + a
  {
  }

  lemma Regroup5<T>(b: seq<T>, x: seq<T>, y: seq<T>, z: seq<T>, a: seq<T>)
    ensures b + x + (y + z + a) == b + (x + y) + (z + a) == b + x + y + z + a
  {
  }

  /** Moving the keys x and a key from one side of a node's key to the other
      keeps the in-order keys of the node. */
  lemma Rotation(q: Tree, i: nat, l: Tree, m: int, r: Tree, l2: Tree, m2: int, r2: Tree, x: seq<int>)
    requires Framed(q) && !q.isLeaf && i <= |q.keys|
    requires Flatten(l) == Flatten(l2) + [m2] + x && Flatten(r2) == x + [m] + Flatten(r)
    ensures Flatten(Expand(q, i, l2, m2, r2)) == Flatten(Expand(q, i, l, m, r))
  {
    FlattenExpand(q, i, l, m, r);
    FlattenExpand(q, i, l2, m2, r2);
    Regroup7(Before(q, i), Flatten(l2), [m2], x, [m], Flatten(r), After(q, i));
  }

  /** ... in particular around keys[i] of a node n. */
  lemma RotationAt(n: Tree, i: nat, l2: Tree, m2: int, r2: Tree, x: seq<int>)
    requires Framed(n) && !n.isLeaf && i < |n.keys|
    requires Flatten(n.edges[i]) == Flatten(l2) + [m2] + x && Flatten(r2) == x + [n.keys[i]] + Flatten(n.edges[i + 1])
    ensures Flatten(Expand(Squeeze(n, i), i, l2, m2, r2)) == Flatten(n)
  {
    Unsqueeze(n, i);
    Rotation(Squeeze(n, i), i, n.edges[i], n.keys[i], n.edges[i + 1], l2, m2, r2, x);
  }

  /** ... and with the roles of the sides swapped. */
  lemma RotationBackAt(n: Tree, i: nat, l2: Tree, m2: int, r2: Tree, x: seq<int>)
    requires Framed(n) && !n.isLeaf && i < |n.keys|
    requires Flatten(l2) == Flatten(n.edges[i]) + [n.keys[i]] + x && Flatten(n.edges[i + 1]) == x + [m2] + Flatten(r2)
    ensures Flatten(Expand(Squeeze(n, i), i, l2, m2, r2)) == Flatten(n)
  {
    Unsqueeze(n, i);
    Rotation(Squeeze(n, i), i, l2, m2, r2, n.edges[i], n.keys[i], n.edges[i + 1], x);
  }

  /** _rotate_right at keys[i] expands the squeezed node with edge i without
      its last key, that key, and edge i + 1 with keys[i] in front. */
  lemma RotateRightIs(n: Tree, i: nat)
    requires Framed(n) && !n.isLeaf && i < |n.keys| && Sorted(Flatten(n))
    requires Framed(n.edges[i]) && |n.edges[i].keys| >= 1 && Framed(n.edges[i + 1])
    ensures var left := n.edges[i]; var s := |left.keys| - 1;
      var e := if left.isLeaf then Nil else left.edges[s + 1];
      FindKeyIndex(left.keys, left.keys[s]) == Found(s, true) &&
      FindKeyIndex(n.edges[i + 1].keys, n.keys[i]) == Found(-1, false) &&
      RotateRight(n, i) == Some(Expand(Squeeze(n, i), i, DropLast(left), left.keys[s], PushFirst(n.edges[i + 1], n.keys[i], e)))
  {
    RightRotationOrder(n, i);
    LastKeyFound(n.edges[i].keys);
    FindBetween(n.edges[i + 1].keys, n.keys[i], 0);
    RightRotationForm(n, i);
  }

  /** Around keys[i] of a sorted node, edge i has sorted keys and edge i + 1
      keys above keys[i]. */
  lemma RightRotationOrder(n: Tree, i: nat)
    requires Framed(n) && !n.isLeaf && i < |n.keys| && Sorted(Flatten(n))
    requires Framed(n.edges[i]) && Framed(n.edges[i + 1])
    ensures Sorted(n.edges[i].keys) && AllAbove(n.keys[i], n.edges[i + 1].keys)
  {
    LeftOfKey(n, i);
    NodeKeysSorted(n.edges[i]);
    RightOfKey(n, i);
    KeysInFlatten(n.edges[i + 1]);
  }

  lemma RightRotationForm(n: Tree, i: nat)
    requires Framed(n) && !n.isLeaf && i < |n.keys|
    requires Framed(n.edges[i]) && |n.edges[i].keys| >= 1 && Framed(n.edges[i + 1])
    requires FindKeyIndex(n.edges[i].keys, n.edges[i].keys[|n.edges[i].keys| - 1]) == Found(|n.edges[i].keys| - 1, true)
    requires !FindKeyIndex(n.edges[i + 1].keys, n.keys[i]).exact
    ensures var left := n.edges[i]; var s := |left.keys| - 1;
      var e := if left.isLeaf then Nil else left.edges[s + 1];
      RotateRight(n, i) == Some(Expand(Squeeze(n, i), i, DropLast(left), left.keys[s], PushFirst(n.edges[i + 1], n.keys[i], e)))
  {
    var left, right := n.edges[i], n.edges[i + 1];
    var s := |left.keys| - 1;
    var e := if left.isLeaf then Nil else left.edges[s + 1];
    RightOrphanOfLast(left);
    TwoEdges(n, i, DropLast(left), left.keys[s], PushFirst(right, n.keys[i], e));
  }

  /** _rotate_right keeps the in-order keys, and edge i + 1 gets the old
      keys[i] in front of its own keys. */
  lemma RotateRightFlatten(n: Tree, i: nat)
    requires Framed(n) && !n.isLeaf && i < |n.keys| && Sorted(Flatten(n))
    requires Framed(n.edges[i]) && |n.edges[i].keys| >= 1 && Framed(n.edges[i + 1])
    requires n.edges[i].isLeaf == n.edges[i + 1].isLeaf
    ensures RotateRight(n, i).Some?
    ensures Flatten(RotateRight(n, i).value) == Flatten(n)
  {
    hide RotateRight, Squeeze, DropLast, PushFirst, Flatten, FindKeyIndex;
    var left, right := n.edges[i], n.edges[i + 1];
    var s := |left.keys| - 1;
    var e := if left.isLeaf then Nil else left.edges[s + 1];
    RotateRightIs(n, i);
    var om := n.keys[i];
    var q, dl, nm, pf := Squeeze(n, i), DropLast(left), left.keys[s], PushFirst(right, om, e);
    var x := if left.isLeaf then [] else Flatten(e);
    assert Flatten(pf) == x + [om] + Flatten(right) by {
      PushFirstParts(right, om, e);
      PrependedFlatten(pf, right, om, e);
    }
    assert Flatten(left) == Flatten(dl) + [nm] + x by {
      DropLastParts(left);
      AppendFlatten(left, dl);
    }
    RotationAt(n, i, dl, nm, pf, x);
  }

  /** ... and edge i + 1 gets keys[i] in front of its own keys. */
  lemma RotateRightChild(n: Tree, i: nat)
    requires Framed(n) && !n.isLeaf && i < |n.keys| && Sorted(Flatten(n))
    requires Framed(n.edges[i]) && |n.edges[i].keys| >= 1 && Framed(n.edges[i + 1])
    ensures RotateRight(n, i).Some?
    ensures Within(Flatten(n.edges[i + 1]), Flatten(RotateRight(n, i).value.edges[i + 1]))
  {
    hide RotateRight, Squeeze, DropLast, PushFirst, Flatten, FindKeyIndex;
    var left, right := n.edges[i], n.edges[i + 1];
    var s := |left.keys| - 1;
    var e := if left.isLeaf then Nil else left.edges[s + 1];
    RotateRightIs(n, i);
    var om := n.keys[i];
    var q, dl, nm, pf := Squeeze(n, i), DropLast(left), left.keys[s], PushFirst(right, om, e);
    PushFirstParts(right, om, e);
    PrependedFlatten(pf, right, om, e);
    assert Expand(q, i, dl, nm, pf).edges[i + 1] == pf;
  }

  lemma RotateRightShape(n: Tree, i: nat, h: nat, L: nat)
    requires Shape(n, h) && Occupied(n, L) && !n.isLeaf && i < |n.keys| && Sorted(Flatten(n))
    requires Framed(n.edges[i]) && Framed(n.edges[i + 1])
    requires |n.edges[i].keys| >= 2 && |n.edges[i + 1].keys| < 2 * L - 1
    ensures RotateRight(n, i).Some?
    ensures Shape(RotateRight(n, i).value, h) && Occupied(RotateRight(n, i).value, L)
    ensures |RotateRight(n, i).value.edges[i + 1].keys| == |n.edges[i + 1].keys| + 1
  {
    hide RotateRight, Squeeze, DropLast, PushFirst, Flatten, FindKeyIndex;
    var left, right := n.edges[i], n.edges[i + 1];
    var s := |left.keys| - 1;
    var e := if left.isLeaf then Nil else left.edges[s + 1];
    RotateRightIs(n, i);
    var q, dl, nm, pf := Squeeze(n, i), DropLast(left), left.keys[s], PushFirst(right, n.keys[i], e);
    ChildFacts(n, i, h, L);
    ChildFacts(n, i + 1, h, L);
    RightRotatedParts(left, right, n.keys[i], h - 1, L);
    RotatedShape(n, i, dl, nm, pf, h, L);
    assert Expand(q, i, dl, nm, pf).edges[i + 1] == pf;
  }

  /** The two children after _rotate_right keep their shapes. */
  lemma RightRotatedParts(left: Tree, right: Tree, om: int, h: nat, L: nat)
    requires Shape(left, h) && Occupied(left, L) && |left.keys| >= 2
    requires FindKeyIndex(left.keys, left.keys[|left.keys| - 1]) == Found(|left.keys| - 1, true)
    requires Shape(right, h) && Occupied(right, L) && |right.keys| < 2 * L - 1
    requires FindKeyIndex(right.keys, om) == Found(-1, false)
    ensures var e := if left.isLeaf then Nil else left.edges[|left.keys|];
      Shape(DropLast(left), h) && Occupied(DropLast(left), L) && |DropLast(left).keys| >= 1 &&
      Shape(PushFirst(right, om, e), h) && Occupied(PushFirst(right, om, e), L) &&
      |PushFirst(right, om, e).keys| == |right.keys| + 1
  {
    var e := if left.isLeaf then Nil else left.edges[|left.keys|];
    DropLastShape(left, h, L);
    if !left.isLeaf {
      ChildFacts(left, |left.keys|, h, L);
    }
    PushFirstParts(right, om, e);
    PushedShape(right, PushFirst(right, om, e), e, h, L);
  }

  /** Replacing keys[i] and the edges around it by nodes of the children's
      height and occupancy keeps the node's shape. */
  lemma RotatedShape(n: Tree, i: nat, l2: Tree, m2: int, r2: Tree, h: nat, L: nat)
    requires Shape(n, h) && Occupied(n, L) && !n.isLeaf && i < |n.keys|
    requires Shape(l2, h - 1) && Occupied(l2, L) && |l2.keys| >= 1
    requires Shape(r2, h - 1) && Occupied(r2, L) && |r2.keys| >= 1
    ensures Shape(Expand(Squeeze(n, i), i, l2, m2, r2), h) && Occupied(Expand(Squeeze(n, i), i, l2, m2, r2), L)
  {
    SqueezeShape(n, i, h, L);
    ExpandShape(Squeeze(n, i), i, l2, m2, r2, h, L);
  }

  /** _rotate_left at keys[i] expands the squeezed node with edge i with
      keys[i] at its end, the first key of edge i + 1, and edge i + 1 without
      that key. */
  lemma RotateLeftIs(n: Tree, i: nat)
    requires Framed(n) && !n.isLeaf && i < |n.keys| && Sorted(Flatten(n))
    requires Framed(n.edges[i]) && Framed(n.edges[i + 1]) && |n.edges[i + 1].keys| >= 1
    ensures var right := n.edges[i + 1];
      var e := if right.isLeaf then Nil else right.edges[0];
      FindKeyIndex(n.edges[i].keys, n.keys[i]) == Found(|n.edges[i].keys| - 1, false) &&
      RotateLeft(n, i) == Some(Expand(Squeeze(n, i), i, PushLast(n.edges[i], n.keys[i], e), right.keys[0], DropFirst(right)))
  {
    LeftOfKey(n, i);
    KeysInFlatten(n.edges[i]);
    FindBetween(n.edges[i].keys, n.keys[i], |n.edges[i].keys|);
    LeftRotationForm(n, i);
  }

  lemma LeftRotationForm(n: Tree, i: nat)
    requires Framed(n) && !n.isLeaf && i < |n.keys|
    requires Framed(n.edges[i]) && Framed(n.edges[i + 1]) && |n.edges[i + 1].keys| >= 1
    requires FindKeyIndex(n.edges[i].keys, n.keys[i]) == Found(|n.edges[i].keys| - 1, false)
    ensures var right := n.edges[i + 1];
      var e := if right.isLeaf then Nil else right.edges[0];
      RotateLeft(n, i) == Some(Expand(Squeeze(n, i), i, PushLast(n.edges[i], n.keys[i], e), right.keys[0], DropFirst(right)))
  {
    var left, right := n.edges[i], n.edges[i + 1];
    var e := if right.isLeaf then Nil else right.edges[0];
    PushLastParts(left, n.keys[i], e);
    FirstKeyFound(right.keys);
    LeftOrphanOfFirst(right);
    TwoEdges(n, i, PushLast(left, n.keys[i], e), right.keys[0], DropFirst(right));
  }

  /** _rotate_left keeps the in-order keys, and edge i gets the old keys[i]
      behind its own keys. */
  lemma RotateLeftFlatten(n: Tree, i: nat)
    requires Framed(n) && !n.isLeaf && i < |n.keys| && Sorted(Flatten(n))
    requires Framed(n.edges[i]) && Framed(n.edges[i + 1]) && |n.edges[i + 1].keys| >= 1
    requires n.edges[i].isLeaf == n.edges[i + 1].isLeaf
    ensures RotateLeft(n, i).Some?
    ensures Flatten(RotateLeft(n, i).value) == Flatten(n)
  {
    var left, right := n.edges[i], n.edges[i + 1];
    var e := if right.isLeaf then Nil else right.edges[0];
    RotateLeftIs(n, i);
    var om := n.keys[i];
    var q, pl, nm, df := Squeeze(n, i), PushLast(left, om, e), right.keys[0], DropFirst(right);
    var x := if right.isLeaf then [] else Flatten(e);
    assert Flatten(pl) == Flatten(left) + [om] + x by {
      PushLastParts(left, om, e);
      AppendedFlatten(pl, left, om, e);
    }
    assert Flatten(right) == x + [nm] + Flatten(df) by {
      DropFirstParts(right);
      PrependFlatten(right, df);
    }
    RotationBackAt(n, i, pl, nm, df, x);
  }

  /** ... and edge i gets keys[i] behind its own keys. */
  lemma RotateLeftChild(n: Tree, i: nat)
    requires Framed(n) && !n.isLeaf && i < |n.keys| && Sorted(Flatten(n))
    requires Framed(n.edges[i]) && Framed(n.edges[i + 1]) && |n.edges[i + 1].keys| >= 1
    ensures RotateLeft(n, i).Some?
    ensures Within(Flatten(n.edges[i]), Flatten(RotateLeft(n, i).value.edges[i]))
  {
    var left, right := n.edges[i], n.edges[i + 1];
    var e := if right.isLeaf then Nil else right.edges[0];
    RotateLeftIs(n, i);
    var om := n.keys[i];
    var q, pl, nm, df := Squeeze(n, i), PushLast(left, om, e), right.keys[0], DropFirst(right);
    PushLastParts(left, om, e);
    AppendedFlatten(pl, left, om, e);
    assert Expand(q, i, pl, nm, df).edges[i] == pl;
  }

  lemma RotateLeftShape(n: Tree, i: nat, h: nat, L: nat)
    requires Shape(n, h) && Occupied(n, L) && !n.isLeaf && i < |n.keys| && Sorted(Flatten(n))
    requires Framed(n.edges[i]) && Framed(n.edges[i + 1])
    requires |n.edges[i + 1].keys| >= 2 && |n.edges[i].keys| < 2 * L - 1
    ensures RotateLeft(n, i).Some?
    ensures Shape(RotateLeft(n, i).value, h) && Occupied(RotateLeft(n, i).value, L)
    ensures |RotateLeft(n, i).value.edges[i].keys| == |n.edges[i].keys| + 1
  {
    var left, right := n.edges[i], n.edges[i + 1];
    var e := if right.isLeaf then Nil else right.edges[0];
    RotateLeftIs(n, i);
    var q, pl, nm, df := Squeeze(n, i), PushLast(left, n.keys[i], e), right.keys[0], DropFirst(right);
    ChildFacts(n, i, h, L);
    ChildFacts(n, i + 1, h, L);
    LeftRotatedParts(left, right, n.keys[i], h - 1, L);
    RotatedShape(n, i, pl, nm, df, h, L);
    assert Expand(q, i, pl, nm, df).edges[i] == pl;
  }

  /** The two children after _rotate_left keep their shapes. */
  lemma LeftRotatedParts(left: Tree, right: Tree, om: int, h: nat, L: nat)
    requires Shape(left, h) && Occupied(left, L) && |left.keys| < 2 * L - 1
    requires FindKeyIndex(left.keys, om) == Found(|left.keys| - 1, false)
    requires Shape(right, h) && Occupied(right, L) && |right.keys| >= 2
    ensures var e := if right.isLeaf then Nil else right.edges[0];
      Shape(DropFirst(right), h) && Occupied(DropFirst(right), L) && |DropFirst(right).keys| >= 1 &&
      Shape(PushLast(left, om, e), h) && Occupied(PushLast(left, om, e), L) &&
      |PushLast(left, om, e).keys| == |left.keys| + 1
  {
    var e := if right.isLeaf then Nil else right.edges[0];
    DropFirstShape(right, h, L);
    if !right.isLeaf {
      ChildFacts(right, 0, h, L);
    }
    PushLastParts(left, om, e);
    PushedShape(left, PushLast(left, om, e), e, h, L);
  }

  /** What a child of a well-shaped, occupied inner node is. */
  lemma ChildFacts(n: Tree, j: nat, h: nat, L: nat)
    requires Shape(n, h) && Occupied(n, L) && !n.isLeaf && j < |n.edges|
    ensures Shape(n.edges[j], h - 1) && Occupied(n.edges[j], L) && Framed(n.edges[j]) && |n.edges[j].keys| >= 1
  {
  }

  /** A joined node keeps the shapes of both halves. */
  lemma JoinShape(p: Pair, h: nat, L: nat)
    requires JoinOk(p) && Shape(p.left, h) && Shape(p.right, h) && EdgesOccupied(p.left, L) && EdgesOccupied(p.right, L)
    ensures Shape(JoinNodes(p), h) && EdgesOccupied(JoinNodes(p), L)
  {
    var j := JoinNodes(p);
    if !p.left.isLeaf {
      assert forall k :: 0 <= k < |j.edges| ==> j.edges[k] == if k < |p.left.edges| then p.left.edges[k] else p.right.edges[k - |p.left.edges|];
    }
  }

  /** _merge at keys[i] of a node with sorted keys replaces the squeezed
      node's edge i by the joined children. */
  lemma MergeIs(n: Tree, i: nat)
    requires Framed(n) && !n.isLeaf && i < |n.keys| && Sorted(n.keys)
    requires JoinOk(Pair(n.edges[i], n.edges[i + 1], n.keys[i]))
    ensures var m := JoinNodes(Pair(n.edges[i], n.edges[i + 1], n.keys[i]));
      Merge(n, i) == Joined(Replace(Squeeze(n, i), i, m), m, i)
  {
    FindKeyIndexSorted(n.keys, n.keys[i]);
    var f := FindKeyIndex(n.keys, n.keys[i]);
    SortedUnique(n.keys, f.index, i);
    var m := JoinNodes(Pair(n.edges[i], n.edges[i + 1], n.keys[i]));
    var d := DeleteKey(n, n.keys[i]);
    assert d.node.edges[i := m] == Squeeze(n, i).edges[i := m];
  }

  /** _merge keeps the in-order keys of a node whose children have the same
      kind, and the merged node holds the keys of both and keys[i]. */
  lemma MergeFlatten(n: Tree, i: nat)
    requires Framed(n) && !n.isLeaf && i < |n.keys| && Sorted(Flatten(n))
    requires JoinOk(Pair(n.edges[i], n.edges[i + 1], n.keys[i]))
    ensures var j := Merge(n, i); var l, r := n.edges[i], n.edges[i + 1];
      j.Joined? && j.at == i && Flatten(j.parent) == Flatten(n) &&
      j.merged == JoinNodes(Pair(l, r, n.keys[i])) &&
      Flatten(j.merged) == Flatten(l) + [n.keys[i]] + Flatten(r)
  {
    var l, r := n.edges[i], n.edges[i + 1];
    NodeKeysSorted(n);
    MergeIs(n, i);
    JoinedFlatten(n, i);
    FlattenJoin(Pair(l, r, n.keys[i]));
  }

  /** Joining edges i and i + 1 around keys[i] keeps the in-order keys. */
  lemma JoinedFlatten(n: Tree, i: nat)
    requires Framed(n) && !n.isLeaf && i < |n.keys|
    requires JoinOk(Pair(n.edges[i], n.edges[i + 1], n.keys[i]))
    ensures Flatten(Replace(Squeeze(n, i), i, JoinNodes(Pair(n.edges[i], n.edges[i + 1], n.keys[i])))) == Flatten(n)
  {
    var l, r := n.edges[i], n.edges[i + 1];
    var p := Pair(l, r, n.keys[i]);
    var q, m := Squeeze(n, i), JoinNodes(p);
    FlattenJoin(p);
    assert Flatten(Replace(q, i, m)) == Before(q, i) + Flatten(m) + After(q, i) by {
      FlattenReplace(q, i, m);
    }
    assert Flatten(n) == Before(q, i) + Flatten(l) + [n.keys[i]] + Flatten(r) + After(q, i) by {
      Unsqueeze(n, i);
      FlattenExpand(q, i, l, n.keys[i], r);
    }
  }

  /** _merge keeps the shape of a node whose two children fit into one. */
  lemma MergeKeeps(n: Tree, i: nat, h: nat, L: nat)
    requires Shape(n, h) && Occupied(n, L) && !n.isLeaf && i < |n.keys| && Sorted(Flatten(n))
    requires Framed(n.edges[i]) && Framed(n.edges[i + 1])
    requires |n.edges[i].keys| + |n.edges[i + 1].keys| <= 2 * L - 2
    ensures var j := Merge(n, i); var l, r := n.edges[i], n.edges[i + 1];
      j.Joined? && j.at == i && Shape(j.parent, h) && Occupied(j.parent, L) && Flatten(j.parent) == Flatten(n) &&
      Shape(j.merged, h - 1) && Occupied(j.merged, L) && |j.merged.keys| == |l.keys| + 1 + |r.keys| &&
      Flatten(j.merged) == Flatten(l) + [n.keys[i]] + Flatten(r)
  {
    var l, r := n.edges[i], n.edges[i + 1];
    var p := Pair(l, r, n.keys[i]);
    ChildFacts(n, i, h, L);
    ChildFacts(n, i + 1, h, L);
    NodeKeysSorted(n);
    MergeIs(n, i);
    MergeFlatten(n, i);
    var q, m := Squeeze(n, i), JoinNodes(p);
    JoinShape(p, h - 1, L);
    SqueezeShape(n, i, h, L);
    ReplaceShape(q, i, m, h, L);
  }

  // ---------------------------------------------------------------------------
  // An iteration keeps what the pass needs

  /** Removing keys[i] from a sorted inner node's in-order keys leaves the
      keys on both of its sides. */
  lemma KeyRemoved(n: Tree, i: nat)
    requires Framed(n) && !n.isLeaf && i < |n.keys| && Sorted(Flatten(n))
    ensures Remove(Flatten(n), n.keys[i]) == Before(n, i) + Flatten(n.edges[i]) + (Flatten(n.edges[i + 1]) + After(n, i + 1))
  {
    var key := n.keys[i];
    var b, l, r, a := Before(n, i), Flatten(n.edges[i]), Flatten(n.edges[i + 1]), After(n, i + 1);
    Around(n, i);
    assert Flatten(n) == (b + l) + [key] + (r + a);
    SortedParts(b, l, After(n, i));
    assert key in After(n, i);
    RemoveMiddle(b + l, [key], r + a, key);
    assert ([key] + (r + a))[1..] == r + a;
  }

  /** Writing a new key over keys[i] leaves the in-order keys ahead of edge i
      and behind edge i + 1 as they were. */
  lemma Rekeyed(n: Tree, i: nat, k: int)
    requires Framed(n) && !n.isLeaf && i < |n.keys|
    ensures var p := n.(keys := n.keys[i := k]);
      Framed(p) && Before(p, i) == Before(n, i) && After(p, i + 1) == After(n, i + 1)
  {
    var p := n.(keys := n.keys[i := k]);
    assert p.keys[..i] == n.keys[..i] && p.edges[..i] == n.edges[..i];
    BeforeEq(p, n, i);
    assert p.keys[i + 1..] == n.keys[i + 1..];
    AfterEq(p, i + 1, n, i + 1);
  }

  /** ... and the node keeps its shape. */
  lemma RekeyedShape(n: Tree, i: nat, k: int, h: nat, L: nat)
    requires Shape(n, h) && Occupied(n, L) && !n.isLeaf && i < |n.keys|
    ensures Shape(n.(keys := n.keys[i := k]), h) && Occupied(n.(keys := n.keys[i := k]), L)
  {
    var p := n.(keys := n.keys[i := k]);
    assert p.edges == n.edges;
  }

  /** The predecessor branch: keys[i] becomes the largest key below edge i,
      which the pass then deletes from edge i. */
  lemma PredecessorStep(n: Tree, i: nat, h: nat, L: nat)
    requires Shape(n, h) && Occupied(n, L) && !n.isLeaf && i < |n.keys| && Sorted(Flatten(n))
    requires n.edges[i].Node? && |n.edges[i].keys| >= 2 && Flatten(n.edges[i]) != []
    ensures var l := Flatten(n.edges[i]); var k := l[|l| - 1];
      Descends(Descend(n.(keys := n.keys[i := k]), i, k), n, n.keys[i], h, L)
  {
    var l := Flatten(n.edges[i]);
    var k := l[|l| - 1];
    RekeyedShape(n, i, k, h, L);
    LeftOfKey(n, i);
    PredecessorRemoves(n, i);
  }

  lemma PredecessorRemoves(n: Tree, i: nat)
    requires Framed(n) && !n.isLeaf && i < |n.keys| && Sorted(Flatten(n)) && Flatten(n.edges[i]) != []
    ensures var l := Flatten(n.edges[i]); var k := l[|l| - 1]; var p := n.(keys := n.keys[i := k]);
      Before(p, i) + Remove(l, k) + After(p, i) == Remove(Flatten(n), n.keys[i])
  {
    var left, right := n.edges[i], n.edges[i + 1];
    var l := Flatten(left);
    var k := l[|l| - 1];
    var p := n.(keys := n.keys[i := k]);
    Rekeyed(n, i, k);
    KeyRemoved(n, i);
    LeftOfKey(n, i);
    RemoveLast(l);
    var b, r, a := Before(n, i), Flatten(right), After(n, i + 1);
    assert After(p, i) == [k] + r + a;
    Regroup5(b, Remove(l, k), [k], r, a);
  }

  /** The successor branch: keys[i] becomes the smallest key below edge
      i + 1, which the pass then deletes from edge i + 1. */
  lemma SuccessorStep(n: Tree, i: nat, h: nat, L: nat)
    requires Shape(n, h) && Occupied(n, L) && !n.isLeaf && i < |n.keys| && Sorted(Flatten(n))
    requires n.edges[i + 1].Node? && |n.edges[i + 1].keys| >= 2 && Flatten(n.edges[i + 1]) != []
    ensures var k := Flatten(n.edges[i + 1])[0];
      Descends(Descend(n.(keys := n.keys[i := k]), i + 1, k), n, n.keys[i], h, L)
  {
    var k := Flatten(n.edges[i + 1])[0];
    RekeyedShape(n, i, k, h, L);
    RightOfKey(n, i);
    SuccessorRemoves(n, i);
  }

  lemma SuccessorRemoves(n: Tree, i: nat)
    requires Framed(n) && !n.isLeaf && i < |n.keys| && Sorted(Flatten(n)) && Flatten(n.edges[i + 1]) != []
    ensures var r := Flatten(n.edges[i + 1]); var k := r[0]; var p := n.(keys := n.keys[i := k]);
      Before(p, i + 1) + Remove(r, k) + After(p, i + 1) == Remove(Flatten(n), n.keys[i])
  {
    var left, right := n.edges[i], n.edges[i + 1];
    var r := Flatten(right);
    var k := r[0];
    var p := n.(keys := n.keys[i := k]);
    Rekeyed(n, i, k);
    KeyRemoved(n, i);
    RemoveFirst(r);
    var b, l, a := Before(n, i), Flatten(left), After(n, i + 1);
    assert Before(p, i + 1) == b + l + [k];
    Regroup5(b, l, [k], Remove(r, k), a);
  }

  /** A merge around keys[i] of two children with at most L - 1 keys each
      either empties the node, or leaves the pass at the merged node, which
      holds the key. */
  lemma MergeStep(n: Tree, i: nat, key: int, exact: bool, h: nat, L: nat)
    requires L >= 2 && Shape(n, h) && Occupied(n, L) && !n.isLeaf && i < |n.keys| && Sorted(Flatten(n))
    requires Framed(n.edges[i]) && Framed(n.edges[i + 1])
    requires |n.edges[i].keys| <= L - 1 && |n.edges[i + 1].keys| <= L - 1
    requires key in Flatten(n.edges[i]) || key == n.keys[i] || key in Flatten(n.edges[i + 1])
    ensures var s := Merged(Merge(n, i), key, exact); Descends(s, n, key, h, L) || Empties(s, n, h, L)
  {
    ChildFacts(n, i, h, L);
    ChildFacts(n, i + 1, h, L);
    MergeKeeps(n, i, h, L);
    var j := Merge(n, i);
    var m := j.merged;
    assert key in Flatten(m);
    if |j.parent.keys| == 0 {
      assert Flatten(j.parent) == Before(j.parent, 0) + Flatten(m);
    } else {
      Preserving(n, j.parent, i, key, h, L);
    }
  }

  /** A rotation from the left sibling into edge i + 1, that then holds at
      least two keys and still the key to delete. */
  lemma RotateRightStep(n: Tree, i: nat, key: int, h: nat, L: nat)
    requires L >= 2 && Shape(n, h) && Occupied(n, L) && !n.isLeaf && i < |n.keys| && Sorted(Flatten(n))
    requires Framed(n.edges[i]) && Framed(n.edges[i + 1])
    requires |n.edges[i].keys| > L - 1 && |n.edges[i + 1].keys| <= L - 1 && key in Flatten(n.edges[i + 1])
    ensures Descends(Rotated(RotateRight(n, i), i + 1, key), n, key, h, L)
  {
    ChildFacts(n, i, h, L);
    ChildFacts(n, i + 1, h, L);
    RotateRightShape(n, i, h, L);
    RotateRightFlatten(n, i);
    RotateRightChild(n, i);
    Preserving(n, RotateRight(n, i).value, i + 1, key, h, L);
  }

  /** A rotation from the right sibling into edge i. */
  lemma RotateLeftStep(n: Tree, i: nat, key: int, h: nat, L: nat)
    requires L >= 2 && Shape(n, h) && Occupied(n, L) && !n.isLeaf && i < |n.keys| && Sorted(Flatten(n))
    requires Framed(n.edges[i]) && Framed(n.edges[i + 1])
    requires |n.edges[i + 1].keys| > L - 1 && |n.edges[i].keys| <= L - 1 && key in Flatten(n.edges[i])
    ensures Descends(Rotated(RotateLeft(n, i), i, key), n, key, h, L)
  {
    ChildFacts(n, i, h, L);
    ChildFacts(n, i + 1, h, L);
    RotateLeftShape(n, i, h, L);
    RotateLeftFlatten(n, i);
    RotateLeftChild(n, i);
    Preserving(n, RotateLeft(n, i).value, i, key, h, L);
  }

  /** An iteration for a key that is not in the node. */
  lemma PastCorrect(n: Tree, key: int, h: nat, L: nat)
    requires L >= 2 && h >= 2 && Shape(n, h) && Occupied(n, L) && |n.keys| >= 1
    requires Sorted(Flatten(n)) && key in Flatten(n) && !FindKeyIndex(n.keys, key).exact
    ensures var s := Past(n, key, FindKeyIndex(n.keys, key).index, L);
      Descends(s, n, key, h, L) || Empties(s, n, h, L)
  {
    var i := FindKeyIndex(n.keys, key).index;
    Routing(n, key);
    ChildFacts(n, i + 1, h, L);
    if i >= 0 {
      ChildFacts(n, i, h, L);
    }
    if i < |n.keys| - 1 {
      ChildFacts(n, i + 2, h, L);
    }
    if |n.edges[i + 1].keys| > L - 1 {
      PastEnter(n, key, i, h, L);
    } else if i >= 0 && |n.edges[i].keys| > L - 1 {
      PastFromLeft(n, key, i, h, L);
    } else if i < |n.keys| - 1 && |n.edges[i + 2].keys| > L - 1 {
      PastFromRight(n, key, i, h, L);
    } else {
      PastMerge(n, key, i, h, L);
    }
  }

  /** What the iteration for a key below edge i + 1 starts from. */
  ghost predicate PastAt(n: Tree, key: int, i: int, h: nat, L: nat)
  {
    L >= 2 && h >= 2 && Shape(n, h) && Occupied(n, L) && EdgesOccupied(n, L) && |n.keys| >= 1 &&
    Sorted(Flatten(n)) && -1 <= i < |n.keys| && key in Flatten(n.edges[i + 1])
  }

  lemma PastEnter(n: Tree, key: int, i: int, h: nat, L: nat)
    requires PastAt(n, key, i, h, L) && |n.edges[i + 1].keys| > L - 1
    ensures Descends(Past(n, key, i, L), n, key, h, L)
  {
    ChildFacts(n, i + 1, h, L);
    Preserving(n, n, i + 1, key, h, L);
  }

  lemma PastFromLeft(n: Tree, key: int, i: int, h: nat, L: nat)
    requires PastAt(n, key, i, h, L) && i >= 0
    requires |n.edges[i + 1].keys| <= L - 1 && |n.edges[i].keys| > L - 1
    ensures Descends(Past(n, key, i, L), n, key, h, L)
  {
    ChildFacts(n, i, h, L);
    ChildFacts(n, i + 1, h, L);
    assert Past(n, key, i, L) == Rotated(RotateRight(n, i), i + 1, key);
    RotateRightStep(n, i, key, h, L);
  }

  lemma PastFromRight(n: Tree, key: int, i: int, h: nat, L: nat)
    requires PastAt(n, key, i, h, L) && i < |n.keys| - 1
    requires |n.edges[i + 1].keys| <= L - 1 && (i >= 0 ==> |n.edges[i].keys| <= L - 1) && |n.edges[i + 2].keys| > L - 1
    ensures Descends(Past(n, key, i, L), n, key, h, L)
  {
    if i >= 0 {
      ChildFacts(n, i, h, L);
    }
    ChildFacts(n, i + 1, h, L);
    ChildFacts(n, i + 2, h, L);
    assert Past(n, key, i, L) == Rotated(RotateLeft(n, i + 1), i + 1, key);
    RotateLeftStep(n, i + 1, key, h, L);
  }

  lemma PastMerge(n: Tree, key: int, i: int, h: nat, L: nat)
    requires PastAt(n, key, i, h, L)
    requires |n.edges[i + 1].keys| <= L - 1 && (i >= 0 ==> |n.edges[i].keys| <= L - 1)
    requires i < |n.keys| - 1 ==> |n.edges[i + 2].keys| <= L - 1
    ensures Descends(Past(n, key, i, L), n, key, h, L) || Empties(Past(n, key, i, L), n, h, L)
  {
    if i >= 0 {
      PastMergeLeft(n, key, i, h, L);
    } else {
      PastMergeRight(n, key, h, L);
    }
  }

  lemma PastMergeLeft(n: Tree, key: int, i: nat, h: nat, L: nat)
    requires PastAt(n, key, i, h, L)
    requires |n.edges[i + 1].keys| <= L - 1 && |n.edges[i].keys| <= L - 1
    requires i < |n.keys| - 1 ==> |n.edges[i + 2].keys| <= L - 1
    ensures Descends(Past(n, key, i, L), n, key, h, L) || Empties(Past(n, key, i, L), n, h, L)
  {
    ChildFacts(n, i, h, L);
    ChildFacts(n, i + 1, h, L);
    if i < |n.keys| - 1 {
      ChildFacts(n, i + 2, h, L);
    }
    assert Past(n, key, i, L) == Merged(Merge(n, i), key, false);
    MergeStep(n, i, key, false, h, L);
  }

  lemma PastMergeRight(n: Tree, key: int, h: nat, L: nat)
    requires PastAt(n, key, -1, h, L)
    requires |n.edges[0].keys| <= L - 1 && |n.edges[1].keys| <= L - 1
    ensures Descends(Past(n, key, -1, L), n, key, h, L) || Empties(Past(n, key, -1, L), n, h, L)
  {
    ChildFacts(n, 0, h, L);
    ChildFacts(n, 1, h, L);
    assert Past(n, key, -1, L) == Merged(Merge(n, 0), key, false);
    MergeStep(n, 0, key, false, h, L);
  }

  /** An iteration for a key that is keys[i] of the node. */
  lemma AtKeyCorrect(n: Tree, key: int, h: nat, L: nat)
    requires L >= 2 && h >= 2 && Shape(n, h) && Occupied(n, L)
    requires Sorted(Flatten(n)) && FindKeyIndex(n.keys, key).exact
    ensures var s := AtKey(n, key, FindKeyIndex(n.keys, key).index, L);
      Descends(s, n, key, h, L) || Empties(s, n, h, L)
  {
    var i := FindKeyIndex(n.keys, key).index;
    ChildFacts(n, i, h, L);
    ChildFacts(n, i + 1, h, L);
    if |n.edges[i].keys| > L - 1 {
      AtKeyLeft(n, i, h, L);
    } else if |n.edges[i + 1].keys| > L - 1 {
      AtKeyRight(n, i, h, L);
    } else {
      KeysInFlatten(n);
      MergeStep(n, i, key, true, h, L);
    }
  }

  /** ... when edge i can spare its largest key ... */
  lemma AtKeyLeft(n: Tree, i: nat, h: nat, L: nat)
    requires L >= 2 && h >= 2 && Shape(n, h) && Occupied(n, L) && i < |n.keys| && Sorted(Flatten(n))
    requires Framed(n.edges[i]) && |n.edges[i].keys| > L - 1
    ensures Descends(AtKey(n, n.keys[i], i, L), n, n.keys[i], h, L)
  {
    ChildFacts(n, i, h, L);
    RightmostLast(n.edges[i], h - 1, L);
    PredecessorStep(n, i, h, L);
  }

  /** ... or edge i + 1 its smallest. */
  lemma AtKeyRight(n: Tree, i: nat, h: nat, L: nat)
    requires L >= 2 && h >= 2 && Shape(n, h) && Occupied(n, L) && i < |n.keys| && Sorted(Flatten(n))
    requires Framed(n.edges[i]) && Framed(n.edges[i + 1])
    requires |n.edges[i].keys| <= L - 1 && |n.edges[i + 1].keys| > L - 1
    ensures Descends(AtKey(n, n.keys[i], i, L), n, n.keys[i], h, L)
  {
    ChildFacts(n, i + 1, h, L);
    LeftmostFirst(n.edges[i + 1], h - 1, L);
    SuccessorStep(n, i, h, L);
  }

  /** Every iteration of the loop of btree_delete on a well-shaped sorted
      tree holding the key either leaves the pass at a child that holds the
      key to delete and has at least two keys, or empties the root. */
  lemma StepCorrect(n: Tree, key: int, h: nat, L: nat)
    requires L >= 2 && h >= 2 && Shape(n, h) && Occupied(n, L) && |n.keys| >= 1
    requires Sorted(Flatten(n)) && key in Flatten(n)
    ensures Descends(Step(n, key, L), n, key, h, L) || Empties(Step(n, key, L), n, h, L)
  {
    if FindKeyIndex(n.keys, key).exact {
      AtKeyCorrect(n, key, h, L);
    } else {
      PastCorrect(n, key, h, L);
    }
  }

  // ---------------------------------------------------------------------------
  // The pass deletes the key

  /** What the pass from a node of height h leaves: the node without the key,
      as high as before and still holding a key if it is inner, or, when the
      merge emptied a root of one key, the merged node one level lower. */
  ghost predicate Deletes(x: Removal, n: Tree, key: int, h: nat, L: nat)
  {
    n.Node? &&
    match x
    case Kept(y) =>
      Shape(y, h) && Occupied(y, L) && Flatten(y) == Remove(Flatten(n), key) &&
      |y.keys| + 1 >= |n.keys| && (!y.isLeaf ==> |y.keys| >= 1)
    case Reset(y, s) =>
      s == 1 && h >= 2 && |n.keys| == 1 && Shape(y, h - 1) && Occupied(y, L) &&
      Flatten(y) == Remove(Flatten(n), key) && |y.keys| >= 1
    case _ => false
  }

  /** Removing the first occurrence of a value at position i. */
  lemma RemoveAt(s: seq<int>, i: nat)
    requires i < |s| && s[i] !in s[..i]
    ensures Remove(s, s[i]) == s[..i] + s[i + 1..]
  {
    hide Remove;
    var a, b := s[..i], s[i + 1..];
    assert s == a + [s[i]] + b;
    RemoveMiddle(a, [s[i]], b, s[i]);
    RemoveHead(s[i], b);
  }

  /** Removing a value from a sequence that starts with it drops the head. */
  lemma RemoveHead(x: int, b: seq<int>)
    ensures Remove([x] + b, x) == b
  {
    assert ([x] + b)[1..] == b;
  }

  /** _delete_key_from_node on a leaf deletes the key from its in-order keys. */
  lemma LeafDelete(n: Tree, key: int, L: nat)
    requires Framed(n) && n.isLeaf && |n.keys| <= 2 * L - 1 && key in n.keys
    ensures Deletes(Kept(DeleteKey(n, key).node), n, key, 1, L)
  {
    var i := FindKeyIndex(n.keys, key).index;
    RemoveAt(n.keys, i);
  }

  /** A child's result put back into the node the iteration changed. */
  lemma KeptBelow(n: Tree, key: int, s: Stepped, x: Removal, h: nat, L: nat)
    requires Descends(s, n, key, h, L) && Deletes(x, s.node.edges[s.child], s.key, h - 1, L)
    ensures Deletes(Below(s.node, s.child, x), n, key, h, L)
  {
    var p, j, y := s.node, s.child, x.node;
    ReplaceShape(p, j, y, h, L);
    FlattenReplace(p, j, y);
  }

  /** One iteration of the pass with the depth correction. */
  lemma PassStep(n: Tree, key: int, r: nat, L: int)
    requires L >= 2 && Framed(n) && !n.isLeaf && r >= 1
    ensures var s := Step(n, key, L);
      (s.Descend? ==> DelAt(n, key, r, L, true) == Below(s.node, s.child, DelAt(s.node.edges[s.child], s.key, r - 1, L, true))) &&
      (s.Emptied? ==> DelAt(n, key, r, L, true) == Shrunk(DelAt(s.merged, key, r - 1, L, true), 1)) &&
      (s.Fault? ==> DelAt(n, key, r, L, true) == NullDeref) &&
      (s.Stop? ==> DelAt(n, key, r, L, true) == Exited)
  {
    hide Step, Below, Shrunk, FindKeyIndex, DeleteKey;
  }

  /** The child an iteration leaves the pass at is a tree to delete from ... */
  lemma DescendsChild(s: Stepped, n: Tree, key: int, h: nat, L: nat)
    requires L >= 2 && h >= 2 && Descends(s, n, key, h, L)
    ensures var c := s.node.edges[s.child];
      Shape(c, h - 1) && Occupied(c, L) && |c.keys| >= 1 && Sorted(Flatten(c)) && s.key in Flatten(c)
  {
    ChildFacts(s.node, s.child, h, L);
  }

  /** ... and so is a merged node that became the root. */
  lemma EmptiesMerged(s: Stepped, n: Tree, key: int, h: nat, L: nat)
    requires Sorted(Flatten(n)) && key in Flatten(n) && Empties(s, n, h, L)
    ensures Shape(s.merged, h - 1) && Occupied(s.merged, L) && |s.merged.keys| >= 2 &&
      Sorted(Flatten(s.merged)) && key in Flatten(s.merged)
  {
  }

  /** The pass from a node of height h, with h - 1 iterations to go,
      deletes a key the node holds (the depth is decreased after every
      merge that empties the root). */
  lemma {:induction false} DelCorrect(n: Tree, key: int, h: nat, L: nat)
    requires L >= 2 && h >= 1 && Shape(n, h) && Occupied(n, L) && (!n.isLeaf ==> |n.keys| >= 1)
    requires Sorted(Flatten(n)) && key in Flatten(n)
    ensures Deletes(DelAt(n, key, h - 1, L, true), n, key, h, L)
    decreases h, 1
  {
    if h == 1 {
      LeafDelete(n, key, L);
    } else {
      var s := Step(n, key, L);
      StepCorrect(n, key, h, L);
      PassStep(n, key, h - 1, L);
      if s.Descend? {
        DescendDeletes(n, key, s, h, L);
      } else {
        EmptiedDeletes(n, key, s, h, L);
      }
    }
  }

  /** Deleting from the child an iteration leaves the pass at deletes from
      the node ... */
  lemma {:induction false} DescendDeletes(n: Tree, key: int, s: Stepped, h: nat, L: nat)
    requires L >= 2 && h >= 2 && Descends(s, n, key, h, L)
    ensures Deletes(Below(s.node, s.child, DelAt(s.node.edges[s.child], s.key, h - 2, L, true)), n, key, h, L)
    decreases h, 0
  {
    hide DelAt, Deletes, Below, Flatten, Occupied, Step;
    var c := s.node.edges[s.child];
    DescendsChild(s, n, key, h, L);
    DelCorrect(c, s.key, h - 1, L);
    KeptBelow(n, key, s, DelAt(c, s.key, h - 2, L, true), h, L);
  }

  /** ... and deleting from the merged node deletes from the emptied root. */
  lemma {:induction false} EmptiedDeletes(n: Tree, key: int, s: Stepped, h: nat, L: nat)
    requires L >= 2 && h >= 2 && Sorted(Flatten(n)) && key in Flatten(n) && Empties(s, n, h, L)
    ensures Deletes(Shrunk(DelAt(s.merged, key, h - 2, L, true), 1), n, key, h, L)
    decreases h, 0
  {
    hide DelAt, Deletes, Shrunk, Flatten, Shape, Occupied, Step;
    EmptiesMerged(s, n, key, h, L);
    DelCorrect(s.merged, key, h - 1, L);
    ResetAbove(n, key, s.merged, DelAt(s.merged, key, h - 2, L, true), h, L);
  }

  /** The result of the pass from a merged node of at least two keys that
      replaced a root of one key, with the same in-order keys. */
  lemma ResetAbove(n: Tree, key: int, m: Tree, x: Removal, h: nat, L: nat)
    requires n.Node? && m.Node? && h >= 2 && |n.keys| == 1 && Flatten(m) == Flatten(n) && |m.keys| >= 2
    requires Deletes(x, m, key, h - 1, L)
    ensures Deletes(Shrunk(x, 1), n, key, h, L)
  {
    assert x.Kept?;
  }

  /** btree_delete with the depth decreased after every merge that empties
      the root: on a valid tree it never exits nor crashes, and leaves a valid
      tree holding every key but the deleted one, one level lower at most. */
  lemma DeleteCorrect(root: Tree, depth: nat, L: nat, key: int)
    requires Valid(root, depth, L)
    ensures var o := TreeDelete(root, depth, L, key, true);
      o.Done? && Valid(o.root, o.depth, L) && Flatten(o.root) == Remove(Flatten(root), key) &&
      (o.depth == depth || (o.depth == depth - 1 && key in Flatten(root)))
  {
    RouteFinds(root, key, depth);
    RemoveSorted(Flatten(root), key);
    if key in Flatten(root) {
      DelCorrect(root, key, depth, L);
    }
  }

  /** After btree_delete, btree_contains finds every key it found before but
      the deleted one, and only those. */
  lemma DeleteContains(root: Tree, depth: nat, L: nat, key: int, y: int)
    requires Valid(root, depth, L)
    ensures var o := TreeDelete(root, depth, L, key, true);
      o.Done? && (Route(o.root, y, o.depth) == Present <==> Route(root, y, depth) == Present && y != key)
  {
    var o := TreeDelete(root, depth, L, key, true);
    DeleteCorrect(root, depth, L, key);
    RemoveSorted(Flatten(root), key);
    RouteFinds(root, y, depth);
    RouteFinds(o.root, y, o.depth);
  }

  /** Deleting a key the tree does not hold changes nothing, with or without
      the depth correction. */
  lemma DeleteAbsent(root: Tree, depth: nat, L: nat, key: int, fix: bool)
    requires Valid(root, depth, L) && key !in Flatten(root)
    ensures TreeDelete(root, depth, L, key, fix) == Done(root, depth)
  {
    RouteFinds(root, key, depth);
  }

  // ---------------------------------------------------------------------------
  // The source as written

  /** Without the depth correction, a merge in the exact-match branch that
      empties the root of a valid tree of depth 2 leaves the pass one
      iteration to run on the merged leaf, which follows a NULL edge. */
  lemma AsWrittenCrashes(root: Tree, L: nat, key: int)
    requires Valid(root, 2, L) && key in Flatten(root)
    requires Step(root, key, L).Emptied? && Step(root, key, L).exact
    ensures TreeDelete(root, 2, L, key, false) == Crashed
  {
    RouteFinds(root, key, 2);
    StepCorrect(root, key, 2, L);
    var m := Step(root, key, L).merged;
    assert DelAt(m, key, 1, L, false) == NullDeref;
  }

  /** Such a tree: with L = 3, deleting the root key 4 merges its two leaves
      into the node 2 3 4 5 6, which as written crashes, and with the
      correction becomes a leaf root without the key. */
  lemma DepthBugExample()
    ensures var root := Node([4], false, [Node([2, 3], true, []), Node([5, 6], true, [])]);
      TreeDelete(root, 2, 3, 4, false) == Crashed &&
      TreeDelete(root, 2, 3, 4, true) == Done(Node([2, 3, 5, 6], true, []), 1)
  {
    var root := Node([4], false, [Node([2, 3], true, []), Node([5, 6], true, [])]);
    var m := Node([2, 3, 4, 5, 6], true, []);
    assert FindKeyIndex(root.keys, 4) == Found(0, true);
    assert Route(root, 4, 2) == Present;
    ExampleMerge();
    ExampleLeaf();
    assert DelAt(root, 4, 1, 3, false) == NullDeref;
    assert DelAt(root, 4, 1, 3, true) == Reset(Node([2, 3, 5, 6], true, []), 1);
  }

  /** The iteration at the root of the example merges and empties it ... */
  lemma ExampleMerge()
    ensures Step(Node([4], false, [Node([2, 3], true, []), Node([5, 6], true, [])]), 4, 3) ==
      Emptied(Node([2, 3, 4, 5, 6], true, []), true)
  {
    var l, r := Node([2, 3], true, []), Node([5, 6], true, []);
    var root := Node([4], false, [l, r]);
    var m := Node([2, 3, 4, 5, 6], true, []);
    assert FindKeyIndex(root.keys, 4) == Found(0, true);
    assert JoinNodes(Pair(l, r, 4)) == m;
    assert DeleteKey(root, 4).node == Node([], false, [Nil]);
    assert Merge(root, 0) == Joined(Node([], false, [m]), m, 0);
  }

  /** ... and the merged leaf without the key, or one iteration too many. */
  lemma ExampleLeaf()
    ensures var m := Node([2, 3, 4, 5, 6], true, []);
      DelAt(m, 4, 0, 3, true) == Kept(Node([2, 3, 5, 6], true, [])) && DelAt(m, 4, 1, 3, false) == NullDeref
  {
    var m := Node([2, 3, 4, 5, 6], true, []);
    assert FindKeyIndex(m.keys, 4) == Found(2, true);
    assert DeleteKey(m, 4).node == Node([2, 3, 5, 6], true, []);
  }
}
