/**
 * The passes of the node decorator that prepare a freshly loaded tree: each node's path,
 * the ids in breadth-first order, the maps a node may lack, and the metrics a leaf lacks.
 */
module NodeDecorator {
  import opened Wrappers
  import opened Strings
  import opened CodeChartaModel
  import opened Hierarchy
  import opened Compaction
  import opened BlacklistFilter

  /** The name of the metric every node carries with value 1 (`MetricService.UNARY_METRIC`). */
  const UNARY_METRIC: string := "unary"

  // ---------------------------------------------------------------- paths

  /** The names of the nodes from the root down to position `p`: d3's `root.path(node)`. */
  function NamesAlong(n: Node, p: Pos): (names: seq<string>)
    requires ValidPos(n, p)
    ensures |names| == |p| + 1 && names[0] == n.name
  {
    if p == [] then [n.name] else [n.name] + NamesAlong(n.children[p[0]], p[1..])
  }

  /** The path the source gives the node at `p`: `/`, then the names along the way joined by `/`. */
  function PathOf(n: Node, p: Pos): string
    requires ValidPos(n, p)
  {
    "/" + Join(NamesAlong(n, p), '/')
  }

  /** Every node of `n` below `parentPath`, top-down: a node's path is its parent's path, `/` and its name. */
  function WithPaths(n: Node, parentPath: string): (r: Node)
    ensures |r.children| == |n.children|
  {
    var path := parentPath + "/" + n.name;
    n.(path := path,
       children := seq(|n.children|, i requires 0 <= i < |n.children| => WithPaths(n.children[i], path)))
  }

  /**
   * Below a parent path, the node at every position gets that parent path followed by the
   * `/`-joined names from the subtree's root down to it; nothing but the path changes.
   */
  lemma {:induction false} WithPathsAt(n: Node, parentPath: string, p: Pos)
    requires ValidPos(n, p)
    ensures ValidPos(WithPaths(n, parentPath), p)
    ensures At(WithPaths(n, parentPath), p).path == parentPath + "/" + Join(NamesAlong(n, p), '/')
    ensures Local(At(WithPaths(n, parentPath), p)) == Local(At(n, p)).(path := At(WithPaths(n, parentPath), p).path)
  {
    var path := parentPath + "/" + n.name;
    if p != [] {
      var c := n.children[p[0]];
      WithPathsAt(c, path, p[1..]);
      var rest := NamesAlong(c, p[1..]);
      assert NamesAlong(n, p) == [n.name] + rest;
      assert Join([n.name] + rest, '/') == n.name + "/" + Join(rest, '/');
    }
  }

  lemma {:induction false} WithPathsShape(n: Node, parentPath: string, p: Pos)
    requires ValidPos(WithPaths(n, parentPath), p)
    ensures ValidPos(n, p)
  {
    if p != [] {
      WithPathsShape(n.children[p[0]], parentPath + "/" + n.name, p[1..]);
    }
  }

  /** `decorateMapWithPathAttribute`: every node of the file's tree gets its path; a file without a tree is returned as it is. */
  function DecorateMapWithPathAttribute(file: CCFile): (r: CCFile)
    ensures r.fileMeta == file.fileMeta && r.settings == file.settings
    ensures r.codeMap.Some? <==> file.codeMap.Some?
    ensures file.codeMap.Some? ==> forall p :: ValidPos(r.codeMap.value, p) <==> ValidPos(file.codeMap.value, p)
    ensures file.codeMap.Some? ==> forall p :: ValidPos(file.codeMap.value, p) ==>
      && ValidPos(r.codeMap.value, p)
      && At(r.codeMap.value, p).path == PathOf(file.codeMap.value, p)
      && Local(At(r.codeMap.value, p)) == Local(At(file.codeMap.value, p)).(path := PathOf(file.codeMap.value, p))
  {
    if file.codeMap.Some? then
      var m := file.codeMap.value;
      var r := WithPaths(m, "");
      assert forall p :: ValidPos(r, p) ==> ValidPos(m, p) by {
        forall p | ValidPos(r, p) ensures ValidPos(m, p) { WithPathsShape(m, "", p); }
      }
      assert forall p :: ValidPos(m, p) ==>
        (ValidPos(r, p) && At(r, p).path == PathOf(m, p) && Local(At(r, p)) == Local(At(m, p)).(path := PathOf(m, p))) by {
        forall p | ValidPos(m, p)
          ensures ValidPos(r, p) && At(r, p).path == PathOf(m, p)
          ensures Local(At(r, p)) == Local(At(m, p)).(path := PathOf(m, p))
        {
          WithPathsAt(m, "", p);
        }
      }
      file.(codeMap := Some(r))
    else
      file
  }

  /** No name in the tree holds a `/`. */
  predicate NamesWithoutSlash(n: Node) {
    '/' !in n.name && forall i :: 0 <= i < |n.children| ==> NamesWithoutSlash(n.children[i])
  }

  /** When no name holds a `/`, a node's path gives back the names from the root down to it. */
  lemma {:induction false} PathOfNamesRoundTrip(n: Node, p: Pos)
    requires ValidPos(n, p)
    requires NamesWithoutSlash(n)
    ensures |PathOf(n, p)| > 0 && PathOf(n, p)[0] == '/'
    ensures Split(PathOf(n, p)[1..], '/') == NamesAlong(n, p)
  {
    NamesAlongWithoutSlash(n, p);
    assert PathOf(n, p)[1..] == Join(NamesAlong(n, p), '/');
    SplitJoin(NamesAlong(n, p), '/');
  }

  lemma {:induction false} NamesAlongWithoutSlash(n: Node, p: Pos)
    requires ValidPos(n, p)
    requires NamesWithoutSlash(n)
    ensures forall i :: 0 <= i < |NamesAlong(n, p)| ==> '/' !in NamesAlong(n, p)[i]
  {
    if p != [] {
      NamesAlongWithoutSlash(n.children[p[0]], p[1..]);
    }
  }

  // ---------------------------------------------------------------- ids

  /** The tree with the id of the node at `p` set to `id`. */
  function SetId(n: Node, p: Pos, id: nat): (r: Node)
    requires ValidPos(n, p)
    ensures |r.children| == |n.children|
  {
    if p == [] then n.(id := id)
    else n.(children := n.children[p[0] := SetId(n.children[p[0]], p[1..], id)])
  }

  lemma {:induction false} SetIdShape(n: Node, p: Pos, id: nat, q: Pos)
    requires ValidPos(n, p)
    ensures ValidPos(SetId(n, p, id), q) <==> ValidPos(n, q)
  {
    if p != [] && q != [] && q[0] < |n.children| {
      var r := SetId(n, p, id);
      if q[0] == p[0] {
        SetIdShape(n.children[p[0]], p[1..], id, q[1..]);
      } else {
        assert r.children[q[0]] == n.children[q[0]];
      }
    }
  }

  /** Setting one id leaves every other node as it was. */
  lemma {:induction false} SetIdAt(n: Node, p: Pos, id: nat, q: Pos)
    requires ValidPos(n, p) && ValidPos(n, q)
    ensures ValidPos(SetId(n, p, id), q)
    ensures Local(At(SetId(n, p, id), q)) == if q == p then Local(At(n, q)).(id := id) else Local(At(n, q))
  {
    SetIdShape(n, p, id, q);
    if q != [] {
      var r := SetId(n, p, id);
      if p == [] {
        assert r.children == n.children;
      } else if q[0] == p[0] {
        SetIdAt(n.children[p[0]], p[1..], id, q[1..]);
        assert q == p <==> q[1..] == p[1..] by {
          assert q == [q[0]] + q[1..] && p == [p[0]] + p[1..];
        }
      } else {
        assert r.children[q[0]] == n.children[q[0]];
      }
    }
  }

  /**
   * `decorateNodesWithIds`: a counter from 0 over the nodes in breadth-first order. Node
   * number `k` of that order gets id `k`, so the root gets 0 and no two nodes share an id;
   * nothing else changes.
   */
  method DecorateNodesWithIds(root: Node) returns (r: Node)
    ensures forall q :: ValidPos(r, q) <==> ValidPos(root, q)
    ensures forall q :: ValidPos(root, q) ==> Local(At(r, q)).(id := 0) == Local(At(root, q)).(id := 0)
    ensures forall k :: 0 <= k < |Descendants(root)| ==>
      ValidPos(r, Descendants(root)[k]) && At(r, Descendants(root)[k]).id == k
    ensures r.id == 0
    ensures forall p, q :: ValidPos(r, p) && ValidPos(r, q) && p != q ==> At(r, p).id != At(r, q).id
  {
    var order := Descendants(root);
    DescendantsEnumerate(root);
    r := root;
    var id := 0;
    while id < |order|
      invariant 0 <= id <= |order|
      invariant IdsUpTo(root, r, order, id)
    {
      SetIdStep(root, r, order, id);
      r := SetId(r, order[id], id);
      id := id + 1;
    }
    forall p, q | ValidPos(r, p) && ValidPos(r, q) && p != q
      ensures At(r, p).id != At(r, q).id
    {
      var i :| 0 <= i < |order| && order[i] == p;
      var j :| 0 <= j < |order| && order[j] == q;
    }
  }

  /** The loop invariant of `DecorateNodesWithIds`: the first `id` positions of `order` are numbered. */
  ghost predicate IdsUpTo(root: Node, r: Node, order: seq<Pos>, id: nat)
    requires id <= |order|
  {
    && (forall q :: ValidPos(r, q) <==> ValidPos(root, q))
    && (forall q :: ValidPos(root, q) ==> Local(At(r, q)).(id := 0) == Local(At(root, q)).(id := 0))
    && (forall k :: 0 <= k < id ==> ValidPos(r, order[k]) && At(r, order[k]).id == k)
  }

  /** Numbering the next position keeps the positions and the other fields, and the earlier numbers. */
  lemma SetIdStep(root: Node, r: Node, order: seq<Pos>, id: nat)
    requires id < |order| && order == Descendants(root)
    requires IdsUpTo(root, r, order, id)
    ensures ValidPos(r, order[id]) && IdsUpTo(root, SetId(r, order[id], id), order, id + 1)
  {
    DescendantsEnumerate(root);
    assert order[id] in order;
    var next := SetId(r, order[id], id);
    forall q
      ensures ValidPos(next, q) <==> ValidPos(r, q)
    {
      SetIdShape(r, order[id], id, q);
    }
    forall q | ValidPos(r, q)
      ensures Local(At(next, q)) == if q == order[id] then Local(At(r, q)).(id := id) else Local(At(r, q))
    {
      SetIdAt(r, order[id], id, q);
    }
    forall k | 0 <= k < id
      ensures order[k] != order[id]
    {
    }
  }

  /**
   * `preDecorateFile`: paths first, then ids. The source hands the tree to d3 without
   * checking it, so a file must have one.
   */
  method PreDecorateFile(file: CCFile) returns (r: CCFile)
    requires file.codeMap.Some?
    ensures r.fileMeta == file.fileMeta && r.settings == file.settings && r.codeMap.Some?
    ensures forall p :: ValidPos(r.codeMap.value, p) <==> ValidPos(file.codeMap.value, p)
    ensures forall p :: ValidPos(file.codeMap.value, p) ==>
      && ValidPos(r.codeMap.value, p)
      && Local(At(r.codeMap.value, p)).(id := 0)
         == Local(At(file.codeMap.value, p)).(path := PathOf(file.codeMap.value, p), id := 0)
    ensures forall k :: 0 <= k < |Descendants(file.codeMap.value)| ==>
      ValidPos(r.codeMap.value, Descendants(file.codeMap.value)[k])
      && At(r.codeMap.value, Descendants(file.codeMap.value)[k]).id == k
    ensures r.codeMap.value.id == 0
    ensures forall p, q :: ValidPos(r.codeMap.value, p) && ValidPos(r.codeMap.value, q) && p != q ==>
      At(r.codeMap.value, p).id != At(r.codeMap.value, q).id
  {
    var withPaths := DecorateMapWithPathAttribute(file);
    var m := withPaths.codeMap.value;
    var ided := DecorateNodesWithIds(m);
    DescendantsEnumerate(m);
    DescendantsEnumerate(file.codeMap.value);
    SameShapeSameDescendants(m, file.codeMap.value);
    r := withPaths.(codeMap := Some(ided));
  }

  /** Two trees with the same positions list them in the same breadth-first order. */
  lemma SameShapeSameDescendants(a: Node, b: Node)
    requires forall q :: ValidPos(a, q) <==> ValidPos(b, q)
    ensures Descendants(a) == Descendants(b)
  {
    SameShapeSameDepth(a, b);
    SameShapeSameLevels(a, b, 0, Depth(a));
  }

  lemma {:induction false} SameShapeSameDepth(a: Node, b: Node)
    requires forall q :: ValidPos(a, q) <==> ValidPos(b, q)
    ensures Depth(a) == Depth(b)
  {
    assert |a.children| == |b.children| by {
      if |a.children| < |b.children| {
        assert ValidPos(b, [|a.children|]);
      } else if |a.children| > |b.children| {
        assert ValidPos(a, [|b.children|]);
      }
    }
    forall i | 0 <= i < |a.children|
      ensures Depth(a.children[i]) == Depth(b.children[i])
    {
      SameShapeChild(a, b, i);
      SameShapeSameDepth(a.children[i], b.children[i]);
    }
    SameShapeSameDepthOf(a.children, b.children);
  }

  lemma {:induction false} SameShapeSameDepthOf(xs: seq<Node>, ys: seq<Node>)
    requires |xs| == |ys|
    requires forall i :: 0 <= i < |xs| ==> Depth(xs[i]) == Depth(ys[i])
    ensures DepthOf(xs) == DepthOf(ys)
  {
    if xs != [] {
      SameShapeSameDepthOf(xs[1..], ys[1..]);
    }
  }

  lemma SameShapeChild(a: Node, b: Node, i: nat)
    requires forall q :: ValidPos(a, q) <==> ValidPos(b, q)
    requires i < |a.children| && i < |b.children|
    ensures forall q :: ValidPos(a.children[i], q) <==> ValidPos(b.children[i], q)
  {
    forall q
      ensures ValidPos(a.children[i], q) <==> ValidPos(b.children[i], q)
    {
      assert ([i] + q)[1..] == q;
      assert ValidPos(a, [i] + q) <==> ValidPos(b, [i] + q);
    }
  }

  lemma {:induction false} SameShapeSameLevels(a: Node, b: Node, k: nat, d: nat)
    requires forall q :: ValidPos(a, q) <==> ValidPos(b, q)
    ensures LevelsFrom(a, k, d) == LevelsFrom(b, k, d)
    decreases d - k
  {
    if k < d {
      SameShapeSameLevel(a, b, k);
      SameShapeSameLevels(a, b, k + 1, d);
    }
  }

  lemma {:induction false} SameShapeSameLevel(a: Node, b: Node, k: nat)
    requires forall q :: ValidPos(a, q) <==> ValidPos(b, q)
    ensures Level(a, k) == Level(b, k)
    decreases a, 1
  {
    if k > 0 {
      SameShapeSameDepth(a, b);
      assert |a.children| == |b.children| by {
        if |a.children| < |b.children| {
          assert ValidPos(b, [|a.children|]);
        } else if |a.children| > |b.children| {
          assert ValidPos(a, [|b.children|]);
        }
      }
      SameShapeSameChildLevel(a, b, a.children, b.children, k - 1, 0);
    }
  }

  lemma {:induction false} SameShapeSameChildLevel(a: Node, b: Node, xs: seq<Node>, ys: seq<Node>, k: nat, base: nat)
    requires |a.children| == |b.children|
    requires forall q :: ValidPos(a, q) <==> ValidPos(b, q)
    requires |xs| == |ys| && base + |xs| == |a.children|
    requires xs == a.children[base..] && ys == b.children[base..]
    ensures ChildLevel(xs, k, base) == ChildLevel(ys, k, base)
    decreases a, 0, xs
  {
    if xs != [] {
      assert xs[0] == a.children[base] && ys[0] == b.children[base];
      SameShapeChild(a, b, base);
      SameShapeSameLevel(xs[0], ys[0], k);
      assert xs[1..] == a.children[base + 1..] && ys[1..] == b.children[base + 1..];
      SameShapeSameChildLevel(a, b, xs[1..], ys[1..], k, base + 1);
    }
  }

  // ---------------------------------------------------------------- missing objects

  /** The callback of `decorateMapWithMissingObjects` on one node. */
  function FillMissingObjects(n: Node): (r: Node)
    ensures HasObjects(r) && r.children == n.children
    ensures r.attributes.value.Keys == n.attributes.GetOr(map[]).Keys + {UNARY_METRIC}
    ensures r.edgeAttributes == Some(n.edgeAttributes.GetOr(map[]))
  {
    n.(attributes := Some(n.attributes.GetOr(map[])[UNARY_METRIC := 1.0]),
       edgeAttributes := Some(n.edgeAttributes.GetOr(map[])))
  }

  /** A node that has both maps, with the unary metric at 1. */
  predicate HasObjects(n: Node) {
    n.attributes.Some? && n.edgeAttributes.Some?
    && UNARY_METRIC in n.attributes.value && n.attributes.value[UNARY_METRIC] == 1.0
  }

  /**
   * `decorateMapWithMissingObjects` on the node at `p`: it ends up with both maps and the unary
   * metric at 1; its other metrics and its edge metrics keep their values and no other key
   * is added; nothing else about the node changes.
   */
  lemma MissingObjectsAt(n: Node, p: Pos)
    requires ValidPos(n, p)
    ensures ValidPos(MapNodes(n, FillMissingObjects), p)
    ensures
      var before := At(n, p);
      var after := At(MapNodes(n, FillMissingObjects), p);
      && HasObjects(after)
      && after.attributes.value.Keys == before.attributes.GetOr(map[]).Keys + {UNARY_METRIC}
      && (forall k :: k in before.attributes.GetOr(map[]) && k != UNARY_METRIC ==>
            after.attributes.value[k] == before.attributes.value[k])
      && (before.edgeAttributes.Some? ==> after.edgeAttributes == before.edgeAttributes)
      && (before.edgeAttributes.None? ==> after.edgeAttributes == Some(map[]))
      && Local(after).(attributes := None, edgeAttributes := None) == Local(before).(attributes := None, edgeAttributes := None)
  {
    MapNodesAt(n, FillMissingObjects, p);
  }

  /** Filling the missing objects a second time changes nothing. */
  lemma {:induction false} MissingObjectsIdempotent(n: Node)
    ensures MapNodes(MapNodes(n, FillMissingObjects), FillMissingObjects) == MapNodes(n, FillMissingObjects)
  {
    var once := MapNodes(n, FillMissingObjects);
    forall i | 0 <= i < |n.children|
      ensures MapNodes(once.children[i], FillMissingObjects) == once.children[i]
    {
      MissingObjectsIdempotent(n.children[i]);
    }
    var attrs := once.attributes.value;
    assert attrs[UNARY_METRIC := 1.0] == attrs;
    assert FillMissingObjects(once) == once;
  }

  // ---------------------------------------------------------------- missing leaf metrics

  /**
   * The inner loop of `decorateLeavesWithMissingMetrics` on one leaf: every listed metric the
   * leaf lacks is added with value 0, and the values it has stay.
   */
  function ZeroFill(attributes: Metrics, metricData: seq<MetricData>): (r: Metrics)
    ensures r.Keys == attributes.Keys + Names(metricData)
    ensures forall k :: k in attributes ==> r[k] == attributes[k]
    ensures forall k :: k in r && k !in attributes ==> r[k] == 0.0
    decreases |metricData|
  {
    if metricData == [] then attributes
    else
      var name := metricData[0].name;
      var next := if name in attributes then attributes else attributes[name := 0.0];
      var r := ZeroFill(next, metricData[1..]);
      assert Names(metricData) == {name} + Names(metricData[1..]) by {
        forall k | k in Names(metricData) ensures k in {name} + Names(metricData[1..]) {
          var i :| 0 <= i < |metricData| && metricData[i].name == k;
          if i > 0 { assert metricData[1..][i - 1] == metricData[i]; }
        }
        forall k | k in Names(metricData[1..]) ensures k in Names(metricData) {
          var i :| 0 <= i < |metricData[1..]| && metricData[1..][i].name == k;
          assert metricData[i + 1].name == k;
        }
      }
      r
  }

  /** The callback on one node: leaves are filled, other nodes are left alone. */
  function FillLeafMetrics(n: Node, metricData: seq<MetricData>): (r: Node)
    ensures n.children != [] || n.attributes.None? ==> r == n
    ensures n.children == [] && n.attributes.Some? ==>
      && r.(attributes := n.attributes) == n && r.attributes.Some?
      && r.attributes.value.Keys == n.attributes.value.Keys + Names(metricData)
  {
    if n.children == [] && n.attributes.Some? then n.(attributes := Some(ZeroFill(n.attributes.value, metricData)))
    else n
  }

  /** Every leaf has its metric map (the source indexes it whenever there are metrics to add). */
  predicate LeavesHaveAttributes(n: Node) {
    forall l :: l in Leaves(n) ==> l.attributes.Some?
  }

  /**
   * `decorateLeavesWithMissingMetrics`: no metric catalogue (`null`) leaves the tree alone;
   * otherwise every leaf lacking a listed metric gets it with value 0.
   */
  function DecorateLeavesWithMissingMetrics(n: Node, metricData: Option<seq<MetricData>>): (r: Node)
    requires metricData.Some? && |metricData.value| > 0 ==> LeavesHaveAttributes(n)
    ensures metricData.None? ==> r == n
  {
    match metricData
    case None => n
    case Some(md) => MapNodes(n, x => FillLeafMetrics(x, md))
  }

  lemma {:induction false} LeafAt(n: Node, p: Pos)
    requires ValidPos(n, p)
    requires At(n, p).children == []
    ensures At(n, p) in Leaves(n)
  {
    if p != [] {
      LeafAt(n.children[p[0]], p[1..]);
      LeavesOfIn(n.children, p[0]);
    }
  }

  /**
   * After `decorateLeavesWithMissingMetrics` with a catalogue, the leaf at any position has
   * every listed metric, missing ones at 0 and present ones unchanged; a node with children
   * is left exactly as it was, and nothing but a leaf's metric map changes.
   */
  lemma MissingMetricsAt(n: Node, metricData: seq<MetricData>, p: Pos)
    requires |metricData| > 0 ==> LeavesHaveAttributes(n)
    requires ValidPos(n, p)
    ensures ValidPos(DecorateLeavesWithMissingMetrics(n, Some(metricData)), p)
    ensures
      var before := At(n, p);
      var after := At(DecorateLeavesWithMissingMetrics(n, Some(metricData)), p);
      && Local(after).(attributes := None) == Local(before).(attributes := None)
      && (before.children != [] ==> Local(after) == Local(before))
      && (before.children == [] && before.attributes.Some? ==>
            && after.attributes.Some?
            && after.attributes.value.Keys == before.attributes.value.Keys + Names(metricData)
            && forall k :: k in after.attributes.value ==>
                 after.attributes.value[k] == if k in before.attributes.value then before.attributes.value[k] else 0.0)
  {
    MapNodesAt(n, x => FillLeafMetrics(x, metricData), p);
  }

  // ---------------------------------------------------------------- the whole decoration

  /** At every node: both maps, with the unary metric at 1. */
  predicate ObjectsPresent(x: Node, isLeaf: bool) {
    HasObjects(x)
  }

  /** At every leaf: a metric map holding every metric of the catalogue. */
  function MetricsPresent(metricData: seq<MetricData>): (Node, bool) -> bool {
    (x: Node, isLeaf: bool) => isLeaf ==> x.attributes.Some? && Names(metricData) <= x.attributes.value.Keys
  }

  /** At every node: the two flags say whether the pattern lists match the transformed path. */
  function Flagged(flattened: seq<string>, excluded: seq<string>,
                   ignores: (seq<string>, string) -> bool, transformPath: string -> string): (Node, bool) -> bool
  {
    (x: Node, isLeaf: bool) =>
      x.isFlattened == ignores(flattened, transformPath(x.path)) && x.isExcluded == ignores(excluded, transformPath(x.path))
  }

  /** Merging middle packages moves maps from a node to its parent, so every node keeps its maps. */
  lemma {:induction false} CompactKeepsObjects(n: Node)
    requires Everywhere(n, ObjectsPresent)
    ensures Everywhere(Compact(n), ObjectsPresent)
    decreases Size(n)
  {
    if IsEmptyMiddlePackage(n) {
      var m := Absorb(n);
      assert Everywhere(n.children[0], ObjectsPresent);
      assert Everywhere(m, ObjectsPresent);
      CompactKeepsObjects(m);
    } else if |n.children| > 1 {
      var r := Compact(n);
      forall i | 0 <= i < |n.children|
        ensures Everywhere(r.children[i], ObjectsPresent)
      {
        CompactKeepsObjects(n.children[i]);
      }
    }
  }

  lemma {:induction false} EverywhereAtLeaves(n: Node, P: (Node, bool) -> bool)
    requires Everywhere(n, P)
    ensures forall l :: l in Leaves(n) ==> P(Local(l), true)
  {
    if n.children != [] {
      forall i | 0 <= i < |n.children|
        ensures forall l :: l in Leaves(n.children[i]) ==> P(Local(l), true)
      {
        EverywhereAtLeaves(n.children[i], P);
      }
      EverywhereAtLeavesOf(n.children, P);
    }
  }

  lemma {:induction false} EverywhereAtLeavesOf(cs: seq<Node>, P: (Node, bool) -> bool)
    requires forall i :: 0 <= i < |cs| ==> forall l :: l in Leaves(cs[i]) ==> P(Local(l), true)
    ensures forall l :: l in LeavesOf(cs) ==> P(Local(l), true)
  {
    if cs != [] {
      EverywhereAtLeavesOf(cs[1..], P);
    }
  }

  lemma MissingObjectsEverywhere(root: Node)
    ensures Everywhere(MapNodes(root, FillMissingObjects), ObjectsPresent)
  {
    var always := (x: Node, isLeaf: bool) => true;
    EverywhereTrue(root, always);
    EverywhereMapNodes(root, FillMissingObjects, always, ObjectsPresent);
  }

  /** Filling leaf metrics keeps the tree compacted and the maps in place, and completes the leaves. */
  lemma LeafMetricsEverywhere(n: Node, metricData: Option<seq<MetricData>>)
    requires Compacted(n) && Everywhere(n, ObjectsPresent)
    ensures metricData.Some? && |metricData.value| > 0 ==> LeavesHaveAttributes(n)
    ensures
      var r := DecorateLeavesWithMissingMetrics(n, metricData);
      && Compacted(r) && Everywhere(r, ObjectsPresent)
      && (metricData.Some? ==> Everywhere(r, MetricsPresent(metricData.value)))
  {
    EverywhereAtLeaves(n, ObjectsPresent);
    if metricData.Some? {
      FillingKeepsObjects(n, metricData.value);
      FillingCompletesLeaves(n, metricData.value);
      CompactedMapNodes(n, x => FillLeafMetrics(x, metricData.value));
    }
  }

  lemma FillingKeepsObjects(n: Node, metricData: seq<MetricData>)
    requires Everywhere(n, ObjectsPresent)
    ensures Everywhere(MapNodes(n, x => FillLeafMetrics(x, metricData)), ObjectsPresent)
  {
    EverywhereMapNodes(n, x => FillLeafMetrics(x, metricData), ObjectsPresent, ObjectsPresent);
  }

  lemma FillingCompletesLeaves(n: Node, metricData: seq<MetricData>)
    requires Everywhere(n, ObjectsPresent)
    ensures Everywhere(MapNodes(n, x => FillLeafMetrics(x, metricData)), MetricsPresent(metricData))
  {
    EverywhereMapNodes(n, x => FillLeafMetrics(x, metricData), ObjectsPresent, MetricsPresent(metricData));
  }

  /** Setting the flags keeps everything the earlier passes established and makes the flags right. */
  lemma FlagsEverywhere(n: Node, metricData: Option<seq<MetricData>>, flattened: seq<string>, excluded: seq<string>,
                        ignores: (seq<string>, string) -> bool, transformPath: string -> string)
    requires Compacted(n) && Everywhere(n, ObjectsPresent)
    requires metricData.Some? ==> Everywhere(n, MetricsPresent(metricData.value))
    ensures
      var r := MapNodes(n, Flagger(flattened, excluded, ignores, transformPath));
      && Compacted(r) && Everywhere(r, ObjectsPresent)
      && (metricData.Some? ==> Everywhere(r, MetricsPresent(metricData.value)))
      && Everywhere(r, Flagged(flattened, excluded, ignores, transformPath))
  {
    var flag := Flagger(flattened, excluded, ignores, transformPath);
    CompactedMapNodes(n, flag);
    FlaggingKeepsObjects(n, flag, flattened, excluded, ignores, transformPath);
    if metricData.Some? {
      FlaggingKeepsMetrics(n, metricData.value, flag, flattened, excluded, ignores, transformPath);
    }
    FlaggingSetsFlags(n, flattened, excluded, ignores, transformPath);
  }

  lemma FlaggingKeepsObjects(n: Node, flag: Node -> Node, flattened: seq<string>, excluded: seq<string>,
                             ignores: (seq<string>, string) -> bool, transformPath: string -> string)
    requires flag == Flagger(flattened, excluded, ignores, transformPath)
    requires Everywhere(n, ObjectsPresent)
    ensures Everywhere(MapNodes(n, flag), ObjectsPresent)
  {
    EverywhereMapNodes(n, flag, ObjectsPresent, ObjectsPresent);
  }

  lemma FlaggingKeepsMetrics(n: Node, metricData: seq<MetricData>, flag: Node -> Node, flattened: seq<string>, excluded: seq<string>,
                             ignores: (seq<string>, string) -> bool, transformPath: string -> string)
    requires flag == Flagger(flattened, excluded, ignores, transformPath)
    requires Everywhere(n, MetricsPresent(metricData))
    ensures Everywhere(MapNodes(n, flag), MetricsPresent(metricData))
  {
    EverywhereMapNodes(n, flag, MetricsPresent(metricData), MetricsPresent(metricData));
  }

  lemma FlaggingSetsFlags(n: Node, flattened: seq<string>, excluded: seq<string>,
                          ignores: (seq<string>, string) -> bool, transformPath: string -> string)
    ensures Everywhere(MapNodes(n, Flagger(flattened, excluded, ignores, transformPath)), Flagged(flattened, excluded, ignores, transformPath))
  {
    var always := (x: Node, isLeaf: bool) => true;
    EverywhereTrue(n, always);
    EverywhereMapNodes(n, Flagger(flattened, excluded, ignores, transformPath), always, Flagged(flattened, excluded, ignores, transformPath));
  }

  /** The metric names of the catalogue, none when there is no catalogue. */
  function CatalogueNames(metricData: Option<seq<MetricData>>): set<string> {
    if metricData.Some? then Names(metricData.value) else {}
  }

  /**
   * How `decorateMap` leaves a leaf: its metric map gains the unary metric at 1 and every
   * catalogued metric it lacks at 0 and keeps every other value; a missing edge map becomes
   * empty; both flags come from its path; nothing else about it changes.
   */
  predicate LeafDecorated(before: Node, after: Node, metricData: Option<seq<MetricData>>,
                          flattened: seq<string>, excluded: seq<string>,
                          ignores: (seq<string>, string) -> bool, transformPath: string -> string)
  {
    var given := before.attributes.GetOr(map[]);
    && after.(attributes := None, edgeAttributes := None, isFlattened := false, isExcluded := false)
       == before.(attributes := None, edgeAttributes := None, isFlattened := false, isExcluded := false)
    && after.attributes.Some?
    && after.attributes.value.Keys == given.Keys + {UNARY_METRIC} + CatalogueNames(metricData)
    && after.attributes.value[UNARY_METRIC] == 1.0
    && (forall k :: k in given && k != UNARY_METRIC ==> after.attributes.value[k] == given[k])
    && (forall k :: k in after.attributes.value && k !in given && k != UNARY_METRIC ==> after.attributes.value[k] == 0.0)
    && after.edgeAttributes == Some(before.edgeAttributes.GetOr(map[]))
    && after.isFlattened == ignores(flattened, transformPath(before.path))
    && after.isExcluded == ignores(excluded, transformPath(before.path))
  }

  /** The three callbacks that reach a leaf, applied in `decorateMap`'s order, decorate it. */
  lemma LeafPasses(l: Node, metricData: Option<seq<MetricData>>, flattened: seq<string>, excluded: seq<string>,
                   ignores: (seq<string>, string) -> bool, transformPath: string -> string)
    requires l.children == []
    ensures
      var filled := FillMissingObjects(l).(children := []);
      var completed := if metricData.Some? then FillLeafMetrics(filled, metricData.value).(children := []) else filled;
      LeafDecorated(l, Flag(completed, flattened, excluded, ignores, transformPath).(children := []),
                    metricData, flattened, excluded, ignores, transformPath)
  {
  }

  /**
   * `decorateMap` as one function of its inputs: the missing maps, then compaction, then the
   * missing leaf metrics, then the blacklist flags.
   */
  function DecoratedMap(root: Node, metricData: Option<seq<MetricData>>, blacklist: seq<BlacklistItem>,
                        ignores: (seq<string>, string) -> bool, transformPath: string -> string): Node
  {
    var filled := MapNodes(root, FillMissingObjects);
    var compacted := Compact(filled);
    MissingObjectsEverywhere(root);
    CompactKeepsObjects(filled);
    LeafMetricsEverywhere(compacted, metricData);
    var completed := DecorateLeavesWithMissingMetrics(compacted, metricData);
    MapNodes(completed, Flagger(PatternsOf(blacklist, Flatten, transformPath), PatternsOf(blacklist, Exclude, transformPath),
                                ignores, transformPath))
  }

  /**
   * The decorated tree has the input's leaves, in the same order, each decorated: compaction
   * merges only packages, so every leaf keeps its name, path, id and values.
   */
  lemma DecoratedMapLeaves(root: Node, metricData: Option<seq<MetricData>>, blacklist: seq<BlacklistItem>,
                           ignores: (seq<string>, string) -> bool, transformPath: string -> string)
    ensures
      var r := DecoratedMap(root, metricData, blacklist, ignores, transformPath);
      && |Leaves(r)| == |Leaves(root)|
      && forall i :: 0 <= i < |Leaves(root)| ==>
           LeafDecorated(Leaves(root)[i], Leaves(r)[i], metricData, PatternsOf(blacklist, Flatten, transformPath),
                         PatternsOf(blacklist, Exclude, transformPath), ignores, transformPath)
  {
    var flattened, excluded := PatternsOf(blacklist, Flatten, transformPath), PatternsOf(blacklist, Exclude, transformPath);
    var filled := MapNodes(root, FillMissingObjects);
    LeavesOfMapNodes(root, FillMissingObjects);
    var compacted := Compact(filled);
    MissingObjectsEverywhere(root);
    CompactKeepsObjects(filled);
    LeafMetricsEverywhere(compacted, metricData);
    var completed := DecorateLeavesWithMissingMetrics(compacted, metricData);
    if metricData.Some? {
      LeavesOfMapNodes(compacted, x => FillLeafMetrics(x, metricData.value));
    }
    var flag := Flagger(flattened, excluded, ignores, transformPath);
    LeavesOfMapNodes(completed, flag);
    var r := MapNodes(completed, flag);
    forall i | 0 <= i < |Leaves(root)|
      ensures LeafDecorated(Leaves(root)[i], Leaves(r)[i], metricData, flattened, excluded, ignores, transformPath)
    {
      LeafPasses(Leaves(root)[i], metricData, flattened, excluded, ignores, transformPath);
    }
  }

  /**
   * `decorateMap`: the result is the four passes applied to `root` in order. It has no empty
   * middle package left, every node has both maps with the unary metric at 1, every leaf has
   * every catalogued metric (when there is a catalogue), and every node's flags are those of
   * its final, compacted path. Its leaves are the input's, in order, each decorated.
   */
  method DecorateMap(root: Node, metricData: Option<seq<MetricData>>, blacklist: seq<BlacklistItem>,
                     ignores: (seq<string>, string) -> bool, transformPath: string -> string)
    returns (r: Node)
    ensures r == DecoratedMap(root, metricData, blacklist, ignores, transformPath)
    ensures Compacted(r)
    ensures Everywhere(r, ObjectsPresent)
    ensures metricData.Some? ==> Everywhere(r, MetricsPresent(metricData.value))
    ensures Everywhere(r, Flagged(PatternsOf(blacklist, Flatten, transformPath), PatternsOf(blacklist, Exclude, transformPath),
                                  ignores, transformPath))
    ensures |Leaves(r)| == |Leaves(root)|
    ensures forall i :: 0 <= i < |Leaves(root)| ==>
      LeafDecorated(Leaves(root)[i], Leaves(r)[i], metricData, PatternsOf(blacklist, Flatten, transformPath),
                    PatternsOf(blacklist, Exclude, transformPath), ignores, transformPath)
  {
    var filled := MapNodes(root, FillMissingObjects);
    MissingObjectsEverywhere(root);
    var compacted := Compact(filled);
    CompactKeepsObjects(filled);
    LeafMetricsEverywhere(compacted, metricData);
    var completed := DecorateLeavesWithMissingMetrics(compacted, metricData);
    r := DecorateMapWithBlacklist(completed, blacklist, ignores, transformPath);
    FlagsEverywhere(completed, metricData, PatternsOf(blacklist, Flatten, transformPath), PatternsOf(blacklist, Exclude, transformPath),
                    ignores, transformPath);
    DecoratedMapLeaves(root, metricData, blacklist, ignores, transformPath);
  }

  lemma {:induction false} EverywhereTrue(n: Node, P: (Node, bool) -> bool)
    requires forall x, isLeaf :: P(x, isLeaf)
    ensures Everywhere(n, P)
  {
    forall i | 0 <= i < |n.children|
      ensures Everywhere(n.children[i], P)
    {
      EverywhereTrue(n.children[i], P);
    }
  }
}
