/**
 * `decorateMapWithCompactMiddlePackages`: a package whose only child is itself a package is
 * merged with that child (names and paths joined by `/`), repeatedly, all the way down.
 */
module Compaction {
  import opened Wrappers
  import opened Strings
  import opened CodeChartaModel
  import opened Hierarchy

  /** `isEmptyMiddlePackage`: exactly one child, and that child has children of its own. */
  predicate IsEmptyMiddlePackage(n: Node) {
    |n.children| == 1 && |n.children[0].children| > 0
  }

  /** JavaScript truthiness of an optional string: present and not empty. */
  predicate Truthy(s: Option<string>) {
    s.Some? && s.value != ""
  }

  /**
   * One merge step: the node takes over its only child's children, metrics, edge metrics and
   * deltas, appends `/` and the child's name to its name and to its path, and takes the
   * child's link only when that link is truthy. Its id and blacklist flags stay.
   */
  function Absorb(n: Node): (r: Node)
    requires IsEmptyMiddlePackage(n)
    ensures Size(r) < Size(n)
    ensures Leaves(r) == Leaves(n)
    ensures r.children == n.children[0].children
    ensures r.name == n.name + "/" + n.children[0].name && r.path == n.path + "/" + n.children[0].name
    ensures r.attributes == n.children[0].attributes && r.edgeAttributes == n.children[0].edgeAttributes
    ensures r.deltas == n.children[0].deltas
    ensures r.link == if Truthy(n.children[0].link) then n.children[0].link else n.link
    ensures r.id == n.id && r.isFlattened == n.isFlattened && r.isExcluded == n.isExcluded
  {
    var child := n.children[0];
    assert SizeOf(n.children) == Size(child) + SizeOf(n.children[1..]);
    assert LeavesOf(n.children) == Leaves(child) + LeavesOf(n.children[1..]);
    n.(children := child.children,
       name := n.name + "/" + child.name,
       path := n.path + "/" + child.name,
       link := if Truthy(child.link) then child.link else n.link,
       attributes := child.attributes,
       edgeAttributes := child.edgeAttributes,
       deltas := child.deltas)
  }

  /** No node of the tree is an empty middle package. */
  predicate Compacted(n: Node) {
    !IsEmptyMiddlePackage(n) && forall i :: 0 <= i < |n.children| ==> Compacted(n.children[i])
  }

  /**
   * `rec`: merge while the node is an empty middle package, then descend into the children
   * when there are several; a single leaf child is left alone. The result has no empty
   * middle package left, the same leaves in the same order, the same id, and a name and a
   * path that were extended by the same suffix.
   */
  function Compact(n: Node): (r: Node)
    ensures Compacted(r)
    ensures Leaves(r) == Leaves(n)
    ensures r.id == n.id
    ensures |n.name| <= |r.name| && r.name[..|n.name|] == n.name
    ensures r.path == n.path + r.name[|n.name|..]
    decreases Size(n)
  {
    if IsEmptyMiddlePackage(n) then
      var m := Absorb(n);
      var r := Compact(m);
      ExtendedTwice(n.name, n.path, m.name, m.path, r.name, r.path);
      r
    else if |n.children| > 1 then
      var cs := seq(|n.children|, i requires 0 <= i < |n.children| => Compact(n.children[i]));
      LeavesOfPointwise(cs, n.children);
      ExtendedByNothing(n.name);
      n.(children := cs)
    else
      ExtendedByNothing(n.name);
      assert n.children != [] ==> n.children[0].children == [];
      n
  }

  /** A name extended by a suffix and then by another is extended by both, and so is its path. */
  lemma ExtendedTwice(name0: string, path0: string, name1: string, path1: string, name2: string, path2: string)
    requires |name0| <= |name1| && name1[..|name0|] == name0 && path1 == path0 + name1[|name0|..]
    requires |name1| <= |name2| && name2[..|name1|] == name1 && path2 == path1 + name2[|name1|..]
    ensures |name0| <= |name2| && name2[..|name0|] == name0 && path2 == path0 + name2[|name0|..]
  {
    assert name2[..|name0|] == name1[..|name0|];
    assert name2[|name0|..] == name1[|name0|..] + name2[|name1|..];
    AppendAssociative(path0, name1[|name0|..], name2[|name1|..]);
  }

  lemma ExtendedByNothing(name: string)
    ensures name[..|name|] == name && name[|name|..] == ""
  {
  }

  /**
   * The children a node absorbs when it is compacted, top to bottom: its only child, that
   * child's only child, and so on, as long as the node above is an empty middle package.
   */
  function Chain(n: Node): (r: seq<Node>)
    ensures IsEmptyMiddlePackage(n) <==> r != []
  {
    if IsEmptyMiddlePackage(n) then [n.children[0]] + Chain(n.children[0]) else []
  }

  /** The node at the bottom of the chain: the first one, from `n` down, that is not an empty middle package. */
  function ChainEnd(n: Node): Node {
    if IsEmptyMiddlePackage(n) then ChainEnd(n.children[0]) else n
  }

  /** `/` and the name of each node of the chain, top to bottom. */
  function ChainSuffix(ns: seq<Node>): string {
    if ns == [] then "" else "/" + ns[0].name + ChainSuffix(ns[1..])
  }

  /** The last truthy link of the nodes, or `fallback` when none of them has one. */
  function LastTruthyLink(ns: seq<Node>, fallback: Option<string>): (r: Option<string>)
    ensures r == fallback || exists i :: 0 <= i < |ns| && r == ns[i].link && Truthy(ns[i].link)
  {
    if ns == [] then fallback
    else if Truthy(ns[|ns| - 1].link) then ns[|ns| - 1].link
    else LastTruthyLink(ns[..|ns| - 1], fallback)
  }

  /** Taking one node's link first and then looking through the rest is looking through all of them. */
  lemma {:induction false} LastTruthyLinkCons(x: Node, ns: seq<Node>, fallback: Option<string>)
    ensures LastTruthyLink([x] + ns, fallback) == LastTruthyLink(ns, if Truthy(x.link) then x.link else fallback)
    decreases |ns|
  {
    var xs := [x] + ns;
    if ns == [] {
      assert xs[..0] == [];
    } else {
      assert xs[|xs| - 1] == ns[|ns| - 1];
      assert xs[..|xs| - 1] == [x] + ns[..|ns| - 1];
      LastTruthyLinkCons(x, ns[..|ns| - 1], fallback);
    }
  }

  /**
   * What compaction makes of a node, for all inputs: the node absorbs its chain. Its three
   * maps are those at the bottom of the chain, its link is the last truthy link along the
   * chain (its own when there is none), its name and path gain `/` and each absorbed name,
   * its id and flags stay, and its children are those at the bottom of the chain, compacted
   * when there are several.
   */
  lemma CompactChain(n: Node)
    ensures
      var e, r := ChainEnd(n), Compact(n);
      && r.attributes == e.attributes && r.edgeAttributes == e.edgeAttributes && r.deltas == e.deltas
      && r.link == LastTruthyLink(Chain(n), n.link)
      && r.name == n.name + ChainSuffix(Chain(n)) && r.path == n.path + ChainSuffix(Chain(n))
      && r.id == n.id && r.isFlattened == n.isFlattened && r.isExcluded == n.isExcluded
      && (|e.children| > 1 ==> r.children == seq(|e.children|, i requires 0 <= i < |e.children| => Compact(e.children[i])))
      && (|e.children| <= 1 ==> r.children == e.children)
  {
    CompactBottom(n);
    CompactLink(n);
    CompactName(n);
  }

  /** After one merge the rest of the chain is the child's, and so is its bottom's content. */
  lemma AbsorbChain(n: Node)
    requires IsEmptyMiddlePackage(n)
    ensures var m, c := Absorb(n), n.children[0];
      && Chain(m) == Chain(c) && Chain(n) == [c] + Chain(c)
      && ChainEnd(m).children == ChainEnd(c).children
      && ChainEnd(m).attributes == ChainEnd(c).attributes
      && ChainEnd(m).edgeAttributes == ChainEnd(c).edgeAttributes
      && ChainEnd(m).deltas == ChainEnd(c).deltas
  {
  }

  /** The maps and children of a compacted node come from the bottom of its chain; its id and flags stay. */
  lemma {:induction false} CompactBottom(n: Node)
    ensures
      var e, r := ChainEnd(n), Compact(n);
      && r.attributes == e.attributes && r.edgeAttributes == e.edgeAttributes && r.deltas == e.deltas
      && r.id == n.id && r.isFlattened == n.isFlattened && r.isExcluded == n.isExcluded
      && (|e.children| > 1 ==> r.children == seq(|e.children|, i requires 0 <= i < |e.children| => Compact(e.children[i])))
      && (|e.children| <= 1 ==> r.children == e.children)
    decreases Size(n)
  {
    if IsEmptyMiddlePackage(n) {
      AbsorbChain(n);
      CompactBottom(Absorb(n));
    }
  }

  /** A compacted node's link is the last truthy link along its chain, or its own. */
  lemma {:induction false} CompactLink(n: Node)
    ensures Compact(n).link == LastTruthyLink(Chain(n), n.link)
    decreases Size(n)
  {
    if IsEmptyMiddlePackage(n) {
      var c := n.children[0];
      AbsorbChain(n);
      CompactLink(Absorb(n));
      LastTruthyLinkCons(c, Chain(c), n.link);
    }
  }

  /** A compacted node's name and path gain `/` and the name of each node of its chain. */
  lemma {:induction false} CompactName(n: Node)
    ensures Compact(n).name == n.name + ChainSuffix(Chain(n))
    ensures Compact(n).path == n.path + ChainSuffix(Chain(n))
    decreases Size(n)
  {
    if IsEmptyMiddlePackage(n) {
      var c := n.children[0];
      var m := Absorb(n);
      AbsorbChain(n);
      CompactName(m);
      assert ChainSuffix(Chain(n)) == "/" + c.name + ChainSuffix(Chain(c)) by {
        assert Chain(n)[1..] == Chain(c);
      }
      AppendAssociative(n.name, "/" + c.name, ChainSuffix(Chain(c)));
      AppendAssociative(n.path, "/" + c.name, ChainSuffix(Chain(c)));
    }
  }

  /** A compacted tree is left as it is. */
  lemma {:induction false} CompactCompacted(n: Node)
    requires Compacted(n)
    ensures Compact(n) == n
    decreases Size(n)
  {
    if |n.children| > 1 {
      forall i | 0 <= i < |n.children|
        ensures Compact(n.children[i]) == n.children[i]
      {
        CompactCompacted(n.children[i]);
      }
    }
  }

  /** Compacting twice is compacting once. */
  lemma CompactIdempotent(n: Node)
    ensures Compact(Compact(n)) == Compact(n)
  {
    CompactCompacted(Compact(n));
  }

  /** A callback that rewrites nodes one by one keeps a compacted tree compacted. */
  lemma {:induction false} CompactedMapNodes(n: Node, f: Node -> Node)
    requires Compacted(n)
    ensures Compacted(MapNodes(n, f))
  {
    forall i | 0 <= i < |n.children|
      ensures Compacted(MapNodes(n.children[i], f))
    {
      CompactedMapNodes(n.children[i], f);
    }
  }

  /** A leaf in the tree: a file with the given name and link. */
  function File(name: string, link: Option<string>): Node {
    Node(name, "/" + name, 0, [], None, None, None, link, false, false)
  }

  function Package(name: string, children: seq<Node>, link: Option<string>): Node {
    Node(name, "/" + name, 0, children, None, None, None, link, false, false)
  }

  /**
   * A root with two package chains, `A/B/X` and `C/D/Y`: `A` and `B` merge into `A/B` and take
   * `B`'s link; `C` and `D` merge into `C/D` and keep `C`'s link, because `D`'s link is the
   * empty string. The root, which has two children, is not merged, and neither is a package
   * holding a single file.
   */
  lemma CompactExample()
    ensures
      var x := File("X", None);
      var b := Package("B", [x], Some("b.html"));
      var a := Package("A", [b], None);
      var y := File("Y", None);
      var d := Package("D", [y], Some(""));
      var c := Package("C", [d], Some("c.html"));
      var root := Package("root", [a, c], None);
      var r := Compact(root);
      && |r.children| == 2 && r.name == "root"
      && r.children[0].name == "A/B" && r.children[0].path == "/A/B"
      && r.children[0].link == Some("b.html")
      && r.children[0].children == [x]
      && r.children[1].name == "C/D" && r.children[1].path == "/C/D"
      && r.children[1].link == Some("c.html")
      && r.children[1].children == [y]
  {
    var x := File("X", None);
    var b := Package("B", [x], Some("b.html"));
    var a := Package("A", [b], None);
    var y := File("Y", None);
    var d := Package("D", [y], Some(""));
    var c := Package("C", [d], Some("c.html"));
    var root := Package("root", [a, c], None);
    assert !IsEmptyMiddlePackage(root);
    var ab := Absorb(a);
    assert ab.children == [x] && ab.name == "A/B" && ab.link == Some("b.html");
    assert Compact(ab) == ab;
    assert Compact(a) == ab;
    var cd := Absorb(c);
    assert cd.children == [y] && cd.name == "C/D" && cd.link == Some("c.html");
    assert Compact(cd) == cd;
    assert Compact(c) == cd;
  }
}
