/** What a B-tree of minimum degree L looks like and which keys it holds: the
    in-order key sequence of a tree, uniform height, node occupancy, and how
    the in-order sequence changes when a node's keys and edges are rearranged
    the way 09-btree/btree.c rearranges them. */
module BTreeShape {
  import opened BTreeNode

  // ---------------------------------------------------------------------------
  // In-order keys

  /** The keys of a tree in order: in an inner node the keys below edge i come
      before keys[i], and those below the last edge come last. */
  function Flatten(t: Tree): seq<int>
    decreases t, 1
  {
    if !Framed(t) then []
    else if t.isLeaf then t.keys
    else Before(t, |t.keys|) + Flatten(t.edges[|t.keys|])
  }

  /** The in-order keys of an inner node ahead of edge c. */
  function Before(n: Tree, c: nat): seq<int>
    requires Framed(n) && !n.isLeaf && c <= |n.keys|
    decreases n, 0, c
  {
    if c == 0 then [] else Before(n, c - 1) + Flatten(n.edges[c - 1]) + [n.keys[c - 1]]
  }

  /** The in-order keys of an inner node behind edge c. */
  function After(n: Tree, c: nat): seq<int>
    requires Framed(n) && !n.isLeaf && c <= |n.keys|
    decreases n, 0, |n.keys| - c
  {
    if c == |n.keys| then [] else [n.keys[c]] + Flatten(n.edges[c + 1]) + After(n, c + 1)
  }

  /** Every edge of an inner node splits its in-order keys in three. */
  lemma {:induction false} Around(n: Tree, c: nat)
    requires Framed(n) && !n.isLeaf && c <= |n.keys|
    ensures Flatten(n) == Before(n, c) + Flatten(n.edges[c]) + After(n, c)
    decreases |n.keys| - c
  {
    if c < |n.keys| {
      Around(n, c + 1);
    }
  }

  /** Before only looks at the keys and edges ahead of edge c. */
  lemma {:induction false} BeforeEq(n: Tree, m: Tree, c: nat)
    requires Framed(n) && !n.isLeaf && c <= |n.keys|
    requires Framed(m) && !m.isLeaf && c <= |m.keys|
    requires n.keys[..c] == m.keys[..c] && n.edges[..c] == m.edges[..c]
    ensures Before(n, c) == Before(m, c)
  {
    if c > 0 {
      assert n.keys[..c - 1] == n.keys[..c][..c - 1] && m.keys[..c - 1] == m.keys[..c][..c - 1];
      assert n.edges[..c - 1] == n.edges[..c][..c - 1] && m.edges[..c - 1] == m.edges[..c][..c - 1];
      assert n.edges[c - 1] == n.edges[..c][c - 1] && n.keys[c - 1] == n.keys[..c][c - 1];
      BeforeEq(n, m, c - 1);
    }
  }

  /** After only looks at the keys from c on and the edges behind edge c. */
  lemma {:induction false} AfterEq(n: Tree, c: nat, m: Tree, d: nat)
    requires Framed(n) && !n.isLeaf && c <= |n.keys|
    requires Framed(m) && !m.isLeaf && d <= |m.keys|
    requires n.keys[c..] == m.keys[d..] && n.edges[c + 1..] == m.edges[d + 1..]
    ensures After(n, c) == After(m, d)
    decreases |n.keys| - c
  {
    assert |n.keys| - c == |n.keys[c..]| == |m.keys[d..]| == |m.keys| - d;
    if c < |n.keys| {
      assert n.keys[c] == n.keys[c..][0] && m.keys[d] == m.keys[d..][0];
      assert n.edges[c + 1] == n.edges[c + 1..][0] && m.edges[d + 1] == m.edges[d + 1..][0];
      assert n.keys[c + 1..] == n.keys[c..][1..] && m.keys[d + 1..] == m.keys[d..][1..];
      assert n.edges[c + 2..] == n.edges[c + 1..][1..] && m.edges[d + 2..] == m.edges[d + 1..][1..];
      AfterEq(n, c + 1, m, d + 1);
    }
  }

  /** The keys of an inner node ahead of edge c are in Before, the others in
      After. */
  lemma {:induction false} KeysAround(n: Tree, c: nat)
    requires Framed(n) && !n.isLeaf && c <= |n.keys|
    ensures forall j :: 0 <= j < c ==> n.keys[j] in Before(n, c)
    ensures forall j :: c <= j < |n.keys| ==> n.keys[j] in After(n, c)
  {
    KeysAhead(n, c);
    KeysBehind(n, c);
  }

  lemma {:induction false} KeysAhead(n: Tree, c: nat)
    requires Framed(n) && !n.isLeaf && c <= |n.keys|
    ensures forall j :: 0 <= j < c ==> n.keys[j] in Before(n, c)
  {
    if c > 0 {
      KeysAhead(n, c - 1);
    }
  }

  lemma {:induction false} KeysBehind(n: Tree, c: nat)
    requires Framed(n) && !n.isLeaf && c <= |n.keys|
    ensures forall j :: c <= j < |n.keys| ==> n.keys[j] in After(n, c)
    decreases |n.keys| - c
  {
    if c < |n.keys| {
      KeysBehind(n, c + 1);
    }
  }

  /** The keys of a node are among its in-order keys. */
  lemma KeysInFlatten(n: Tree)
    requires Framed(n)
    ensures forall j :: 0 <= j < |n.keys| ==> n.keys[j] in Flatten(n)
  {
    if !n.isLeaf {
      Around(n, 0);
      KeysAround(n, 0);
    }
  }

  // ---------------------------------------------------------------------------
  // Rearranging a node

  /** Key m goes in at position c with edges l and r on its two sides, in
      place of the edge that was at c. */
  function Expand(n: Tree, c: nat, l: Tree, m: int, r: Tree): (e: Tree)
    requires Framed(n) && c <= |n.keys|
    ensures Framed(e) && e.isLeaf == n.isLeaf && |e.keys| == |n.keys| + 1 && e.keys[c] == m
    ensures !n.isLeaf ==> e.edges[c] == l && e.edges[c + 1] == r
  {
    var keys := n.keys[..c] + [m] + n.keys[c..];
    if n.isLeaf then Node(keys, true, []) else Node(keys, false, n.edges[..c] + [l, r] + n.edges[c + 1..])
  }

  /** Expanding at c puts the keys of l, m and r where edge c's keys were. */
  lemma FlattenExpand(n: Tree, c: nat, l: Tree, m: int, r: Tree)
    requires Framed(n) && !n.isLeaf && c <= |n.keys|
    ensures Flatten(Expand(n, c, l, m, r)) == Before(n, c) + Flatten(l) + [m] + Flatten(r) + After(n, c)
  {
    var e := Expand(n, c, l, m, r);
    Around(e, c);
    ExpandBefore(n, c, l, m, r);
    ExpandAfter(n, c, l, m, r);
    Assoc(Before(n, c), Flatten(l), [m], Flatten(r), After(n, c));
  }

  lemma ExpandBefore(n: Tree, c: nat, l: Tree, m: int, r: Tree)
    requires Framed(n) && !n.isLeaf && c <= |n.keys|
    ensures Before(Expand(n, c, l, m, r), c) == Before(n, c)
  {
    var e := Expand(n, c, l, m, r);
    assert e.keys[..c] == n.keys[..c] && e.edges[..c] == n.edges[..c];
    BeforeEq(e, n, c);
  }

  lemma ExpandAfter(n: Tree, c: nat, l: Tree, m: int, r: Tree)
    requires Framed(n) && !n.isLeaf && c <= |n.keys|
    ensures After(Expand(n, c, l, m, r), c) == [m] + Flatten(r) + After(n, c)
  {
    var e := Expand(n, c, l, m, r);
    assert e.keys[c + 1..] == n.keys[c..] && e.edges[c + 2..] == n.edges[c + 1..];
    AfterEq(e, c + 1, n, c);
  }

  /** Regrouping a concatenation of five parts. */
  lemma Assoc<T>(a: seq<T>, b: seq<T>, c: seq<T>, d: seq<T>, e: seq<T>)
    ensures a + b + (c + d + e) == a + b + c + d + e
  {
  }

  lemma FlattenExpandLeaf(n: Tree, c: nat, l: Tree, m: int, r: Tree)
    requires Framed(n) && n.isLeaf && c <= |n.keys|
    ensures Flatten(Expand(n, c, l, m, r)) == n.keys[..c] + [m] + n.keys[c..]
  {
  }

  /** Edge c of an inner node replaced by x. */
  function Replace(n: Tree, c: nat, x: Tree): (e: Tree)
    requires Framed(n) && !n.isLeaf && c <= |n.keys|
    ensures Framed(e) && !e.isLeaf && e.keys == n.keys && e.edges[c] == x
    ensures forall j :: 0 <= j < |n.edges| && j != c ==> e.edges[j] == n.edges[j]
  {
    n.(edges := n.edges[c := x])
  }

  /** Replacing edge c puts x's keys where edge c's keys were. */
  lemma FlattenReplace(n: Tree, c: nat, x: Tree)
    requires Framed(n) && !n.isLeaf && c <= |n.keys|
    ensures Flatten(Replace(n, c, x)) == Before(n, c) + Flatten(x) + After(n, c)
  {
    var e := Replace(n, c, x);
    Around(e, c);
    assert e.edges[..c] == n.edges[..c];
    BeforeEq(e, n, c);
    assert e.edges[c + 1..] == n.edges[c + 1..];
    AfterEq(e, c, n, c);
  }

  /** A joined node holds the left keys, the middle key and the right keys. */
  lemma FlattenJoin(p: Pair)
    requires JoinOk(p)
    ensures Flatten(JoinNodes(p)) == Flatten(p.left) + [p.middle] + Flatten(p.right)
  {
    if !p.left.isLeaf {
      var j := JoinNodes(p);
      var i := |p.left.keys|;
      Around(j, i);
      JoinBefore(p);
      JoinAfter(p);
      Around(p.right, 0);
      var x, y, z := Before(j, i) + Flatten(j.edges[i]), Flatten(p.right.edges[0]), After(p.right, 0);
      assert Flatten(j) == x + ([p.middle] + y + z);
      assert x + ([p.middle] + y + z) == x + [p.middle] + (y + z);
    } else {
      assert Flatten(JoinNodes(p)) == JoinNodes(p).keys;
    }
  }

  lemma JoinBefore(p: Pair)
    requires JoinOk(p) && !p.left.isLeaf
    ensures var j := JoinNodes(p); var i := |p.left.keys|;
      Before(j, i) + Flatten(j.edges[i]) == Flatten(p.left)
  {
    var j := JoinNodes(p);
    var i := |p.left.keys|;
    assert j.keys[..i] == p.left.keys[..i] && j.edges[..i] == p.left.edges[..i];
    BeforeEq(j, p.left, i);
    assert j.edges[i] == p.left.edges[i];
  }

  lemma JoinAfter(p: Pair)
    requires JoinOk(p) && !p.left.isLeaf
    ensures var j := JoinNodes(p); var i := |p.left.keys|;
      After(j, i) == [p.middle] + Flatten(p.right.edges[0]) + After(p.right, 0)
  {
    var j := JoinNodes(p);
    var i := |p.left.keys|;
    assert j.edges[i + 1] == p.right.edges[0];
    assert j.keys[i + 1..] == p.right.keys[0..] && j.edges[i + 2..] == p.right.edges[1..];
    AfterEq(j, i + 1, p.right, 0);
  }

  // ---------------------------------------------------------------------------
  // Well-shaped trees

  /** Every node is framed, every leaf is at depth h and every inner node
      has its children one level lower. */
  predicate Shape(t: Tree, h: nat)
    decreases t
  {
    Framed(t) && h >= 1 && (t.isLeaf <==> h == 1) &&
    forall i :: 0 <= i < |t.edges| ==> Shape(t.edges[i], h - 1)
  }

  /** No node holds more than 2L - 1 keys, and every node below the root has
      at least one key. */
  predicate Occupied(t: Tree, L: nat)
    decreases t, 1
  {
    t.Node? && |t.keys| <= 2 * L - 1 && EdgesOccupied(t, L)
  }

  /** Every child of t has a key and is occupied. */
  predicate EdgesOccupied(t: Tree, L: nat)
    requires t.Node?
    decreases t, 0
  {
    forall i :: 0 <= i < |t.edges| ==> t.edges[i].Node? && |t.edges[i].keys| >= 1 && Occupied(t.edges[i], L)
  }

  /** The tree of a struct btree with minimum degree L (full_node_splitter):
      shaped for its depth, occupied, its in-order keys strictly increasing,
      and an inner root with at least one key. */
  predicate Valid(root: Tree, depth: int, L: nat)
  {
    L >= 2 && depth >= 1 && Shape(root, depth) && Occupied(root, L) && Sorted(Flatten(root)) &&
    (!root.isLeaf ==> |root.keys| >= 1)
  }

  /** The node shapes an expansion keeps. */
  lemma ExpandShape(n: Tree, c: nat, l: Tree, m: int, r: Tree, h: nat, L: nat)
    requires Shape(n, h) && c <= |n.keys|
    requires !n.isLeaf ==> Shape(l, h - 1) && Shape(r, h - 1)
    requires EdgesOccupied(n, L)
    requires !n.isLeaf ==> Occupied(l, L) && Occupied(r, L) && |l.keys| >= 1 && |r.keys| >= 1
    ensures Shape(Expand(n, c, l, m, r), h) && EdgesOccupied(Expand(n, c, l, m, r), L)
  {
    var e := Expand(n, c, l, m, r);
    if !n.isLeaf {
      forall j | 0 <= j < |e.edges| ensures Shape(e.edges[j], h - 1) && e.edges[j].Node? && |e.edges[j].keys| >= 1 && Occupied(e.edges[j], L) {
        if j < c {
          assert e.edges[j] == n.edges[j];
        } else if j > c + 1 {
          assert e.edges[j] == n.edges[j - 1];
        }
      }
    }
  }

  /** The node shapes replacing an edge keeps. */
  lemma ReplaceShape(n: Tree, c: nat, x: Tree, h: nat, L: nat)
    requires Shape(n, h) && !n.isLeaf && c <= |n.keys| && Shape(x, h - 1)
    requires EdgesOccupied(n, L) && Occupied(x, L) && |x.keys| >= 1
    ensures Shape(Replace(n, c, x), h) && EdgesOccupied(Replace(n, c, x), L)
  {
  }

  /** The halves of a node keep its children's shapes. */
  lemma HalvesShape(p: Pair, h: nat, L: nat)
    requires JoinOk(p) && Shape(JoinNodes(p), h) && EdgesOccupied(JoinNodes(p), L)
    ensures Shape(p.left, h) && Shape(p.right, h) && EdgesOccupied(p.left, L) && EdgesOccupied(p.right, L)
  {
    var j := JoinNodes(p);
    if !p.left.isLeaf {
      assert forall i :: 0 <= i < |p.left.edges| ==> p.left.edges[i] == j.edges[i];
      assert forall i :: 0 <= i < |p.right.edges| ==> p.right.edges[i] == j.edges[|p.left.edges| + i];
    }
  }

  /** The in-order keys of a root over two children. */
  lemma FlattenRoot(l: Tree, m: int, r: Tree)
    ensures Flatten(Node([m], false, [l, r])) == Flatten(l) + [m] + Flatten(r)
  {
    var t := Node([m], false, [l, r]);
    assert Before(t, 1) == Before(t, 0) + Flatten(l) + [m];
  }

  // ---------------------------------------------------------------------------
  // Strictly increasing sequences

  /** A sorted concatenation is two sorted parts, all of the first below all
      of the second. */
  lemma SortedSplit(a: seq<int>, b: seq<int>)
    requires Sorted(a + b)
    ensures Sorted(a) && Sorted(b) && forall x, y :: x in a && y in b ==> x < y
  {
    forall x, y | x in a && y in b ensures x < y {
      var i :| 0 <= i < |a| && a[i] == x;
      var j :| 0 <= j < |b| && b[j] == y;
      assert (a + b)[i] == x && (a + b)[|a| + j] == y;
    }
    assert forall i :: 0 <= i < |a| ==> (a + b)[i] == a[i];
    assert forall j :: 0 <= j < |b| ==> (a + b)[|a| + j] == b[j];
  }

  lemma SortedJoin(a: seq<int>, b: seq<int>)
    requires Sorted(a) && Sorted(b) && forall x, y :: x in a && y in b ==> x < y
    ensures Sorted(a + b)
  {
    var s := a + b;
    forall i, j | 0 <= i < j < |s| ensures s[i] < s[j] {
      if j < |a| {
        assert s[i] == a[i] && s[j] == a[j];
      } else if i >= |a| {
        assert s[i] == b[i - |a|] && s[j] == b[j - |a|];
      } else {
        assert s[i] == a[i] && s[j] == b[j - |a|];
        assert s[i] in a && s[j] in b;
      }
    }
  }

  /** In a sorted sequence a value of the middle part is in neither end. */
  lemma SortedOnce(a: seq<int>, m: seq<int>, b: seq<int>, x: int)
    requires Sorted(a + m + b) && x in m
    ensures x !in a && x !in b
  {
    SortedSplit(a + m, b);
    SortedSplit(a, m);
    assert x in a + m;
  }

  /** The last value of a sorted sequence is its largest. */
  lemma SortedLast(s: seq<int>)
    requires Sorted(s) && |s| > 0
    ensures forall x :: x in s ==> x <= s[|s| - 1]
  {
  }

  // ---------------------------------------------------------------------------
  // Removing a value

  /** The sequence without the first occurrence of x. */
  function Remove(s: seq<int>, x: int): (r: seq<int>)
    ensures x !in s ==> r == s
    ensures |r| == if x in s then |s| - 1 else |s|
  {
    if s == [] then [] else if s[0] == x then s[1..] else [s[0]] + Remove(s[1..], x)
  }

  lemma {:induction false} RemoveAppend(a: seq<int>, b: seq<int>, x: int)
    ensures Remove(a + b, x) == if x in a then Remove(a, x) + b else a + Remove(b, x)
  {
    if a != [] {
      assert (a + b)[0] == a[0] && (a + b)[1..] == a[1..] + b;
      assert a == [a[0]] + a[1..];
      if a[0] == x {
        assert Remove(a + b, x) == a[1..] + b;
        assert Remove(a, x) == a[1..];
      } else {
        RemoveAppend(a[1..], b, x);
        assert x in a <==> x in a[1..];
        if x in a {
          assert Remove(a + b, x) == [a[0]] + (Remove(a[1..], x) + b);
        } else {
          assert Remove(a + b, x) == [a[0]] + (a[1..] + Remove(b, x));
        }
      }
    } else {
      assert a + b == b && a + Remove(b, x) == Remove(b, x);
    }
  }

  /** Removing from the middle part of a concatenation that holds x only
      there. */
  lemma RemoveMiddle(a: seq<int>, m: seq<int>, b: seq<int>, x: int)
    requires x !in a
    ensures Remove(a + m + b, x) == a + Remove(m + b, x)
    ensures x !in b ==> Remove(a + m + b, x) == a + Remove(m, x) + b
  {
    assert a + m + b == a + (m + b);
    RemoveAppend(a, m + b, x);
    if x !in b {
      RemoveAppend(m, b, x);
    }
  }

  /** Removing a value keeps every other value and no new one. */
  lemma {:induction false} RemoveMembers(s: seq<int>, x: int)
    ensures forall y :: y in Remove(s, x) ==> y in s
    ensures forall y :: y in s && y != x ==> y in Remove(s, x)
  {
    if s != [] {
      var t := s[1..];
      assert s == [s[0]] + t;
      RemoveMembers(t, x);
    }
  }

  /** Removing a value from a sorted sequence leaves it sorted, without
      that value and with every other value. */
  lemma {:induction false} RemoveSorted(s: seq<int>, x: int)
    requires Sorted(s)
    ensures Sorted(Remove(s, x)) && x !in Remove(s, x)
    ensures forall y :: y in Remove(s, x) <==> y in s && y != x
  {
    RemoveMembers(s, x);
    if s != [] {
      var t := s[1..];
      assert s == [s[0]] + t;
      SortedSplit([s[0]], t);
      RemoveSorted(t, x);
      if s[0] != x {
        RemoveMembers(t, x);
        SortedJoin([s[0]], Remove(t, x));
      }
    }
  }

  /** The largest value of a sorted sequence is removed by dropping it. */
  lemma RemoveLast(s: seq<int>)
    requires Sorted(s) && |s| > 0
    ensures Remove(s, s[|s| - 1]) + [s[|s| - 1]] == s
  {
    var n := |s| - 1;
    var a, x := s[..n], s[n];
    assert s == a + [x];
    assert x !in a by {
      SortedSplit(a, [x]);
    }
    assert Remove(a + [x], x) == a by {
      RemoveAppend(a, [x], x);
      assert Remove([x], x) == [];
    }
  }

  /** The smallest value of a sorted sequence is removed by dropping it. */
  lemma RemoveFirst(s: seq<int>)
    requires |s| > 0
    ensures [s[0]] + Remove(s, s[0]) == s
  {
  }
}
