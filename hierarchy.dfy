/**
 * The traversals the node decorator takes from d3's `hierarchy`: the leaves of a subtree in
 * pre-order (`leaves()`), a visit of every node with a callback that rewrites that node
 * (`each`), and the breadth-first list of all nodes (`descendants()`). A node inside a tree
 * is addressed by its position: the child indices on the way from the root.
 */
module Hierarchy {
  import opened CodeChartaModel

  function Size(n: Node): nat {
    1 + SizeOf(n.children)
  }

  function SizeOf(cs: seq<Node>): (s: nat)
    ensures forall i :: 0 <= i < |cs| ==> Size(cs[i]) <= s
  {
    if cs == [] then 0 else Size(cs[0]) + SizeOf(cs[1..])
  }

  /** `leaves()`: the nodes without children below `n` (or `n` itself), left to right. */
  function Leaves(n: Node): (ls: seq<Node>)
    ensures |ls| > 0
    ensures forall i :: 0 <= i < |ls| ==> ls[i].children == []
  {
    if n.children == [] then [n] else LeavesOf(n.children)
  }

  function LeavesOf(cs: seq<Node>): (ls: seq<Node>)
    ensures forall i :: 0 <= i < |ls| ==> ls[i].children == []
  {
    if cs == [] then [] else Leaves(cs[0]) + LeavesOf(cs[1..])
  }

  /** Children with the same leaves, one by one, have the same leaves together. */
  lemma {:induction false} LeavesOfPointwise(xs: seq<Node>, ys: seq<Node>)
    requires |xs| == |ys|
    requires forall i :: 0 <= i < |xs| ==> Leaves(xs[i]) == Leaves(ys[i])
    ensures LeavesOf(xs) == LeavesOf(ys)
  {
    if xs != [] {
      LeavesOfPointwise(xs[1..], ys[1..]);
    }
  }

  /** The position of a node: the child index taken at each level, starting at the root. */
  type Pos = seq<nat>

  predicate ValidPos(n: Node, p: Pos) {
    p == [] || (p[0] < |n.children| && ValidPos(n.children[p[0]], p[1..]))
  }

  /** The node at position `p`. */
  function At(n: Node, p: Pos): Node
    requires ValidPos(n, p)
  {
    if p == [] then n else At(n.children[p[0]], p[1..])
  }

  /** The fields of a node that belong to it alone, its children left out. */
  function Local(n: Node): Node {
    n.(children := [])
  }

  /**
   * `each(callback)` where the callback rewrites only the fields of the node it is given:
   * every node of the result is `f` of the node at the same place in `n`, over the same
   * children positions.
   */
  function MapNodes(n: Node, f: Node -> Node): Node {
    f(n).(children := seq(|n.children|, i requires 0 <= i < |n.children| => MapNodes(n.children[i], f)))
  }

  /** The node at any position of a mapped tree is the mapped subtree found there. */
  lemma {:induction false} MapNodesAt(n: Node, f: Node -> Node, p: Pos)
    requires ValidPos(n, p)
    ensures ValidPos(MapNodes(n, f), p)
    ensures At(MapNodes(n, f), p) == MapNodes(At(n, p), f)
  {
    if p != [] {
      MapNodesAt(n.children[p[0]], f, p[1..]);
    }
  }

  /** Mapping keeps the tree's shape: it has no positions the original lacks. */
  lemma {:induction false} MapNodesShape(n: Node, f: Node -> Node, p: Pos)
    requires ValidPos(MapNodes(n, f), p)
    ensures ValidPos(n, p)
  {
    if p != [] {
      MapNodesShape(n.children[p[0]], f, p[1..]);
    }
  }

  /**
   * `P` holds at every node of the tree, applied to the node's own fields and to whether the
   * node is a leaf.
   */
  predicate Everywhere(n: Node, P: (Node, bool) -> bool) {
    P(Local(n), n.children == []) && forall i :: 0 <= i < |n.children| ==> Everywhere(n.children[i], P)
  }

  /**
   * A callback that turns every node satisfying `Q` into one satisfying `P` does so in the
   * whole tree.
   */
  lemma {:induction false} EverywhereMapNodes(n: Node, f: Node -> Node, Q: (Node, bool) -> bool, P: (Node, bool) -> bool)
    requires Everywhere(n, Q)
    requires forall x :: Q(Local(x), x.children == []) ==> P(Local(f(x)), x.children == [])
    ensures Everywhere(MapNodes(n, f), P)
  {
    var m := MapNodes(n, f);
    assert Local(m) == Local(f(n));
    forall i | 0 <= i < |n.children|
      ensures Everywhere(m.children[i], P)
    {
      EverywhereMapNodes(n.children[i], f, Q, P);
    }
  }

  /** A callback that leaves every leaf alone leaves the sequence of leaves alone. */
  lemma {:induction false} MapNodesLeaves(n: Node, f: Node -> Node)
    requires forall l :: l in Leaves(n) ==> f(l) == l
    ensures Leaves(MapNodes(n, f)) == Leaves(n)
  {
    if n.children != [] {
      var m := MapNodes(n, f);
      forall i | 0 <= i < |n.children|
        ensures Leaves(m.children[i]) == Leaves(n.children[i])
      {
        LeavesOfIn(n.children, i);
        MapNodesLeaves(n.children[i], f);
      }
      LeavesOfPointwise(m.children, n.children);
    }
  }

  /** The callback applied to each leaf of a list, the results kept childless. */
  function MapLeaves(ls: seq<Node>, f: Node -> Node): (r: seq<Node>)
    ensures |r| == |ls|
  {
    seq(|ls|, i requires 0 <= i < |ls| => f(ls[i]).(children := []))
  }

  /** Mapping every node maps the leaves, one by one and in order. */
  lemma {:induction false} LeavesOfMapNodes(n: Node, f: Node -> Node)
    ensures Leaves(MapNodes(n, f)) == MapLeaves(Leaves(n), f)
  {
    if n.children != [] {
      var m := MapNodes(n, f);
      forall i | 0 <= i < |n.children|
        ensures Leaves(m.children[i]) == MapLeaves(Leaves(n.children[i]), f)
      {
        LeavesOfMapNodes(n.children[i], f);
      }
      LeavesOfMapped(n.children, m.children, f);
    }
  }

  lemma {:induction false} LeavesOfMapped(xs: seq<Node>, ys: seq<Node>, f: Node -> Node)
    requires |xs| == |ys|
    requires forall i :: 0 <= i < |xs| ==> Leaves(ys[i]) == MapLeaves(Leaves(xs[i]), f)
    ensures LeavesOf(ys) == MapLeaves(LeavesOf(xs), f)
  {
    if xs != [] {
      LeavesOfMapped(xs[1..], ys[1..], f);
      var a, b := Leaves(xs[0]), LeavesOf(xs[1..]);
      assert MapLeaves(a + b, f) == MapLeaves(a, f) + MapLeaves(b, f);
    }
  }

  /** Every leaf of one child is among the leaves of all the children. */
  lemma {:induction false} LeavesOfIn(cs: seq<Node>, i: nat)
    requires i < |cs|
    ensures forall l :: l in Leaves(cs[i]) ==> l in LeavesOf(cs)
  {
    if i > 0 {
      LeavesOfIn(cs[1..], i - 1);
    }
  }

  predicate NoDuplicates<T(==)>(s: seq<T>) {
    forall i, j :: 0 <= i < j < |s| ==> s[i] != s[j]
  }

  lemma NoDuplicatesAppend<T>(a: seq<T>, b: seq<T>)
    requires NoDuplicates(a) && NoDuplicates(b)
    requires forall x :: x in a ==> x !in b
    ensures NoDuplicates(a + b)
  {
    forall i, j | 0 <= i < j < |a + b|
      ensures (a + b)[i] != (a + b)[j]
    {
      if i < |a| && j >= |a| {
        assert (a + b)[i] in a;
        assert (a + b)[j] == b[j - |a|];
      }
    }
  }

  /** `ps` with child index `i` put in front of every position. */
  function Prefixed(i: nat, ps: seq<Pos>): (r: seq<Pos>)
    ensures |r| == |ps|
    ensures forall j :: 0 <= j < |ps| ==> r[j] == [i] + ps[j]
  {
    seq(|ps|, j requires 0 <= j < |ps| => [i] + ps[j])
  }

  /** The positions at depth `k`, left to right: one level of the breadth-first order. */
  function Level(n: Node, k: nat): seq<Pos> {
    if k == 0 then [[]] else ChildLevel(n.children, k - 1, 0)
  }

  /** The depth-`k` positions below each of `cs`, where `cs[0]` is child number `base`. */
  function ChildLevel(cs: seq<Node>, k: nat, base: nat): seq<Pos> {
    if cs == [] then [] else Prefixed(base, Level(cs[0], k)) + ChildLevel(cs[1..], k, base + 1)
  }

  /** The number of levels of the tree. */
  function Depth(n: Node): (d: nat)
    ensures d >= 1
  {
    1 + DepthOf(n.children)
  }

  function DepthOf(cs: seq<Node>): (d: nat)
    ensures forall i :: 0 <= i < |cs| ==> Depth(cs[i]) <= d
  {
    if cs == [] then 0
    else
      var rest := DepthOf(cs[1..]);
      if Depth(cs[0]) < rest then rest else Depth(cs[0])
  }

  function LevelsFrom(n: Node, k: nat, d: nat): seq<Pos>
    decreases d - k
  {
    if k >= d then [] else Level(n, k) + LevelsFrom(n, k + 1, d)
  }

  /** `descendants()`: every position, level by level, each level left to right. */
  function Descendants(n: Node): seq<Pos> {
    LevelsFrom(n, 0, Depth(n))
  }

  lemma {:induction false} LevelFacts(n: Node, k: nat)
    ensures forall q :: q in Level(n, k) ==> |q| == k && ValidPos(n, q)
    ensures NoDuplicates(Level(n, k))
  {
    if k > 0 {
      ChildLevelFacts(n.children, k - 1, 0);
    }
  }

  lemma {:induction false} ChildLevelFacts(cs: seq<Node>, k: nat, base: nat)
    ensures forall q :: q in ChildLevel(cs, k, base) ==>
      |q| == k + 1 && base <= q[0] < base + |cs| && ValidPos(cs[q[0] - base], q[1..])
    ensures NoDuplicates(ChildLevel(cs, k, base))
  {
    if cs != [] {
      var head := Prefixed(base, Level(cs[0], k));
      var rest := ChildLevel(cs[1..], k, base + 1);
      LevelFacts(cs[0], k);
      ChildLevelFacts(cs[1..], k, base + 1);
      forall q | q in head
        ensures |q| == k + 1 && q[0] == base && ValidPos(cs[0], q[1..])
      {
        var j :| 0 <= j < |head| && head[j] == q;
        assert q[1..] == Level(cs[0], k)[j];
      }
      forall q | q in rest
        ensures base < q[0] < base + |cs| && ValidPos(cs[q[0] - base], q[1..])
      {
        assert cs[1..][q[0] - (base + 1)] == cs[q[0] - base];
      }
      forall i, j | 0 <= i < j < |head|
        ensures head[i] != head[j]
      {
        assert head[i][1..] == Level(cs[0], k)[i];
        assert head[j][1..] == Level(cs[0], k)[j];
      }
      NoDuplicatesAppend(head, rest);
    }
  }

  /** Every position of the tree appears in the level of its length. */
  lemma {:induction false} LevelCovers(n: Node, p: Pos)
    requires ValidPos(n, p)
    ensures p in Level(n, |p|)
  {
    if p != [] {
      ChildLevelCovers(n.children, |p| - 1, 0, p);
    }
  }

  lemma {:induction false} ChildLevelCovers(cs: seq<Node>, k: nat, base: nat, q: Pos)
    requires |q| == k + 1 && base <= q[0] < base + |cs|
    requires ValidPos(cs[q[0] - base], q[1..])
    ensures q in ChildLevel(cs, k, base)
    decreases cs, 0
  {
    if q[0] == base {
      LevelCovers(cs[0], q[1..]);
      var j :| 0 <= j < |Level(cs[0], k)| && Level(cs[0], k)[j] == q[1..];
      assert Prefixed(base, Level(cs[0], k))[j] == q;
    } else {
      assert cs[1..][q[0] - (base + 1)] == cs[q[0] - base];
      ChildLevelCovers(cs[1..], k, base + 1, q);
    }
  }

  lemma {:induction false} DepthBound(n: Node, p: Pos)
    requires ValidPos(n, p)
    ensures |p| < Depth(n)
  {
    if p != [] {
      DepthBound(n.children[p[0]], p[1..]);
    }
  }

  lemma {:induction false} LevelsFromFacts(n: Node, k: nat, d: nat)
    ensures forall q :: q in LevelsFrom(n, k, d) ==> k <= |q| < d && ValidPos(n, q)
    ensures NoDuplicates(LevelsFrom(n, k, d))
    ensures forall q :: ValidPos(n, q) && k <= |q| < d ==> q in LevelsFrom(n, k, d)
    decreases d - k
  {
    if k < d {
      LevelFacts(n, k);
      LevelsFromFacts(n, k + 1, d);
      NoDuplicatesAppend(Level(n, k), LevelsFrom(n, k + 1, d));
      forall q | ValidPos(n, q) && |q| == k
        ensures q in LevelsFrom(n, k, d)
      {
        LevelCovers(n, q);
      }
    }
  }

  /**
   * The breadth-first list names every node exactly once, and the root first: its entries
   * are positions of the tree, no position twice, every position of the tree among them.
   */
  lemma DescendantsEnumerate(n: Node)
    ensures |Descendants(n)| > 0 && Descendants(n)[0] == []
    ensures forall q :: q in Descendants(n) ==> ValidPos(n, q)
    ensures NoDuplicates(Descendants(n))
    ensures forall q :: ValidPos(n, q) ==> q in Descendants(n)
  {
    LevelsFromFacts(n, 0, Depth(n));
    forall q | ValidPos(n, q)
      ensures q in Descendants(n)
    {
      DepthBound(n, q);
    }
  }
}
