/**
 * `decorateParentNodesWithAggregatedAttributes`: every node with children gets, for each
 * listed metric, the aggregate of that metric over its non-excluded leaves (and the same for
 * deltas in delta mode and for edge metrics); leaves are never written.
 */
module Aggregation {
  import opened Wrappers
  import opened CodeChartaModel
  import opened Strings
  import opened Hierarchy
  import opened LeafAggregation

  /** `filter(x => !x.data.isExcluded)`, keeping the order. */
  function NotExcluded(ls: seq<Node>): (r: seq<Node>)
    ensures |r| <= |ls|
  {
    if ls == [] then []
    else (if ls[0].isExcluded then [] else [ls[0]]) + NotExcluded(ls[1..])
  }

  /** The filter keeps exactly the nodes of the list that are not excluded. */
  lemma {:induction false} NotExcludedMembers(ls: seq<Node>, x: Node)
    ensures x in NotExcluded(ls) <==> x in ls && !x.isExcluded
  {
    if ls != [] {
      NotExcludedMembers(ls[1..], x);
      assert x in ls <==> x == ls[0] || x in ls[1..];
    }
  }

  /** `node.leaves().filter(x => !x.data.isExcluded)`. */
  function IncludedLeaves(n: Node): seq<Node> {
    NotExcluded(Leaves(n))
  }

  /** The leaves' metric maps (a leaf without one contributes no value). */
  function AttributesOf(ls: seq<Node>): (r: seq<Metrics>)
    ensures |r| == |ls|
  {
    if ls == [] then [] else [ls[0].attributes.GetOr(map[])] + AttributesOf(ls[1..])
  }

  function DeltasOf(ls: seq<Node>): (r: seq<Metrics>)
    ensures |r| == |ls|
  {
    if ls == [] then [] else [ls[0].deltas.GetOr(map[])] + DeltasOf(ls[1..])
  }

  function EdgeAttributesOf(ls: seq<Node>): (r: seq<EdgeMetrics>)
    ensures |r| == |ls|
  {
    if ls == [] then [] else [ls[0].edgeAttributes.GetOr(map[])] + EdgeAttributesOf(ls[1..])
  }

  lemma NamesTail(metricData: seq<MetricData>)
    requires metricData != []
    ensures Names(metricData) == {metricData[0].name} + Names(metricData[1..])
  {
    forall k | k in Names(metricData)
      ensures k in {metricData[0].name} + Names(metricData[1..])
    {
      var i :| 0 <= i < |metricData| && metricData[i].name == k;
      if i > 0 {
        assert metricData[1..][i - 1] == metricData[i];
      }
    }
    forall k | k in Names(metricData[1..])
      ensures k in Names(metricData)
    {
      var i :| 0 <= i < |metricData[1..]| && metricData[1..][i].name == k;
      assert metricData[i + 1].name == k;
    }
  }

  /**
   * `metricData.forEach(metric => target[metric.name] = aggregateLeafMetric(...))`: every
   * listed metric is set to its aggregate over the leaves' maps; other keys stay.
   */
  function WriteMetrics(target: Metrics, leafMaps: seq<Metrics>, metricData: seq<MetricData>, attributeTypes: AttributeTypes): (r: Metrics)
    requires attributeTypes.nodes.Some?
    ensures r.Keys == target.Keys + Names(metricData)
    ensures forall k :: k in target && k !in Names(metricData) ==> r[k] == target[k]
    ensures forall k :: k in Names(metricData) ==> r[k] == AggregateLeafMetric(leafMaps, k, attributeTypes)
    decreases |metricData|
  {
    if metricData == [] then target
    else
      var name := metricData[0].name;
      NamesTail(metricData);
      WriteMetrics(target[name := AggregateLeafMetric(leafMaps, name, attributeTypes)], leafMaps, metricData[1..], attributeTypes)
  }

  /** The same for edge metrics, with `aggregateLeafEdgeMetric`. */
  function WriteEdgeMetrics(target: EdgeMetrics, leafMaps: seq<EdgeMetrics>, edgeMetricData: seq<MetricData>, attributeTypes: AttributeTypes): (r: EdgeMetrics)
    requires attributeTypes.edges.Some?
    ensures r.Keys == target.Keys + Names(edgeMetricData)
    ensures forall k :: k in target && k !in Names(edgeMetricData) ==> r[k] == target[k]
    ensures forall k :: k in Names(edgeMetricData) ==> r[k] == AggregateLeafEdgeMetric(leafMaps, k, attributeTypes)
    decreases |edgeMetricData|
  {
    if edgeMetricData == [] then target
    else
      var name := edgeMetricData[0].name;
      NamesTail(edgeMetricData);
      WriteEdgeMetrics(target[name := AggregateLeafEdgeMetric(leafMaps, name, attributeTypes)], leafMaps, edgeMetricData[1..], attributeTypes)
  }

  /**
   * The callback on one node. A leaf is returned as it is; a node with children has its
   * metrics (and, in delta mode, its deltas) rewritten when there are metrics, and its edge
   * metrics when there are edge metrics. A missing map or attribute-type table is ruled out
   * by `AggregationReady`; the fall-backs here only make the callback total.
   */
  function AggregateNode(n: Node, metricData: seq<MetricData>, edgeMetricData: seq<MetricData>,
                         isDeltaState: bool, attributeTypes: AttributeTypes): (r: Node)
    ensures n.children == [] ==> r == n
    ensures r.(attributes := n.attributes, deltas := n.deltas, edgeAttributes := n.edgeAttributes) == n
  {
    if n.children == [] then n
    else
      var leaves := IncludedLeaves(n);
      n.(attributes := AggregatedAttributes(n.attributes, leaves, metricData, attributeTypes),
         deltas := AggregatedDeltas(n.deltas, leaves, metricData, isDeltaState, attributeTypes),
         edgeAttributes := AggregatedEdgeAttributes(n.edgeAttributes, leaves, edgeMetricData, attributeTypes))
  }

  /** `AggregateNode` with the inputs fixed, as the callback handed to the traversal. */
  function Aggregator(metricData: seq<MetricData>, edgeMetricData: seq<MetricData>,
                      isDeltaState: bool, attributeTypes: AttributeTypes): Node -> Node
  {
    x => AggregateNode(x, metricData, edgeMetricData, isDeltaState, attributeTypes)
  }

  /** The node's metric map after aggregation over `leaves`. */
  function AggregatedAttributes(attributes: Option<Metrics>, leaves: seq<Node>, metricData: seq<MetricData>,
                                attributeTypes: AttributeTypes): Option<Metrics>
  {
    if metricData != [] && attributeTypes.nodes.Some? then
      Some(WriteMetrics(attributes.GetOr(map[]), AttributesOf(leaves), metricData, attributeTypes))
    else attributes
  }

  /** The node's deltas after aggregation: rewritten in delta mode only. */
  function AggregatedDeltas(deltas: Option<Metrics>, leaves: seq<Node>, metricData: seq<MetricData>,
                            isDeltaState: bool, attributeTypes: AttributeTypes): Option<Metrics>
  {
    if metricData != [] && attributeTypes.nodes.Some? && isDeltaState then
      Some(WriteMetrics(deltas.GetOr(map[]), DeltasOf(leaves), metricData, attributeTypes))
    else deltas
  }

  /** The node's edge metrics after aggregation. */
  function AggregatedEdgeAttributes(edgeAttributes: Option<EdgeMetrics>, leaves: seq<Node>, edgeMetricData: seq<MetricData>,
                                    attributeTypes: AttributeTypes): Option<EdgeMetrics>
  {
    if edgeMetricData != [] && attributeTypes.edges.Some? then
      Some(WriteEdgeMetrics(edgeAttributes.GetOr(map[]), EdgeAttributesOf(leaves), edgeMetricData, attributeTypes))
    else edgeAttributes
  }

  /**
   * What the source dereferences without checking, at every node with children: with
   * metrics, the node-type table, the node's metric map and those of its non-excluded leaves
   * (and all deltas in delta mode); with edge metrics, the edge-type table and the edge maps.
   */
  predicate AggregationReady(n: Node, metricData: seq<MetricData>, edgeMetricData: seq<MetricData>,
                             isDeltaState: bool, attributeTypes: AttributeTypes)
  {
    && (n.children != [] && metricData != [] ==>
          && attributeTypes.nodes.Some? && n.attributes.Some? && (isDeltaState ==> n.deltas.Some?)
          && forall l :: l in IncludedLeaves(n) ==> l.attributes.Some? && (isDeltaState ==> l.deltas.Some?))
    && (n.children != [] && edgeMetricData != [] ==>
          && attributeTypes.edges.Some? && n.edgeAttributes.Some?
          && forall l :: l in IncludedLeaves(n) ==> l.edgeAttributes.Some?)
    && forall i :: 0 <= i < |n.children| ==>
         AggregationReady(n.children[i], metricData, edgeMetricData, isDeltaState, attributeTypes)
  }

  /**
   * `decorateParentNodesWithAggregatedAttributes`: the callback on every node; a missing tree
   * is returned as it is. The blacklist argument is not read: exclusion comes from the
   * nodes' own `isExcluded` flags.
   */
  function DecorateParentNodesWithAggregatedAttributes(
    root: Option<Node>, blacklist: seq<BlacklistItem>, metricData: seq<MetricData>, edgeMetricData: seq<MetricData>,
    isDeltaState: bool, attributeTypes: AttributeTypes): (r: Option<Node>)
    requires root.Some? ==> AggregationReady(root.value, metricData, edgeMetricData, isDeltaState, attributeTypes)
    ensures r.Some? <==> root.Some?
    ensures root.Some? ==> Leaves(r.value) == Leaves(root.value)
  {
    match root
    case None => None
    case Some(n) =>
      var f := Aggregator(metricData, edgeMetricData, isDeltaState, attributeTypes);
      MapNodesLeaves(n, f);
      Some(MapNodes(n, f))
  }

  /**
   * How aggregation leaves one node, `before` becoming `after`. A leaf is unchanged. Only the
   * three maps of a node with children can change: with metrics, every listed metric holds
   * its aggregate over the node's non-excluded leaves, which for an absolute or unclassified
   * metric is the sum of their values (sum invariant), and every other metric keeps its
   * value; deltas likewise in delta mode and otherwise not at all; edge metrics likewise.
   */
  predicate AggregatedFrom(before: Node, after: Node, metricData: seq<MetricData>, edgeMetricData: seq<MetricData>,
                           isDeltaState: bool, attributeTypes: AttributeTypes)
  {
    var leaves := IncludedLeaves(before);
    && (before.children == [] ==> after == before)
    && Local(after).(attributes := None, deltas := None, edgeAttributes := None)
       == Local(before).(attributes := None, deltas := None, edgeAttributes := None)
    && (metricData == [] ==> after.attributes == before.attributes && after.deltas == before.deltas)
    && (!isDeltaState ==> after.deltas == before.deltas)
    && (edgeMetricData == [] ==> after.edgeAttributes == before.edgeAttributes)
    && (before.children != [] && metricData != [] ==>
          && attributeTypes.nodes.Some? && after.attributes.Some? && before.attributes.Some?
          && after.attributes.value.Keys == before.attributes.value.Keys + Names(metricData)
          && (forall k :: k in before.attributes.value && k !in Names(metricData) ==>
                after.attributes.value[k] == before.attributes.value[k])
          && (forall k :: k in Names(metricData) ==>
                after.attributes.value[k] == AggregateLeafMetric(AttributesOf(leaves), k, attributeTypes))
          && (forall k :: k in Names(metricData) && !IsRelative(attributeTypes.nodes.value, k) ==>
                after.attributes.value[k] == Total(AttributesOf(leaves), k)))
    && (before.children != [] && metricData != [] && isDeltaState ==>
          && attributeTypes.nodes.Some? && after.deltas.Some? && before.deltas.Some?
          && after.deltas.value.Keys == before.deltas.value.Keys + Names(metricData)
          && (forall k :: k in before.deltas.value && k !in Names(metricData) ==>
                after.deltas.value[k] == before.deltas.value[k])
          && (forall k :: k in Names(metricData) ==>
                after.deltas.value[k] == AggregateLeafMetric(DeltasOf(leaves), k, attributeTypes))
          && (forall k :: k in Names(metricData) && !IsRelative(attributeTypes.nodes.value, k) ==>
                after.deltas.value[k] == Total(DeltasOf(leaves), k)))
    && (before.children != [] && edgeMetricData != [] ==>
          && attributeTypes.edges.Some? && after.edgeAttributes.Some? && before.edgeAttributes.Some?
          && after.edgeAttributes.value.Keys == before.edgeAttributes.value.Keys + Names(edgeMetricData)
          && (forall k :: k in before.edgeAttributes.value && k !in Names(edgeMetricData) ==>
                after.edgeAttributes.value[k] == before.edgeAttributes.value[k])
          && (forall k :: k in Names(edgeMetricData) ==>
                after.edgeAttributes.value[k] == AggregateLeafEdgeMetric(EdgeAttributesOf(leaves), k, attributeTypes)))
  }

  /** The callback on one node does what `AggregatedFrom` describes. */
  lemma AggregateNodeAggregates(before: Node, metricData: seq<MetricData>, edgeMetricData: seq<MetricData>,
                                isDeltaState: bool, attributeTypes: AttributeTypes)
    requires AggregationReady(before, metricData, edgeMetricData, isDeltaState, attributeTypes)
    ensures AggregatedFrom(before, AggregateNode(before, metricData, edgeMetricData, isDeltaState, attributeTypes),
                           metricData, edgeMetricData, isDeltaState, attributeTypes)
  {
    var after := AggregateNode(before, metricData, edgeMetricData, isDeltaState, attributeTypes);
    var leaves := IncludedLeaves(before);
    if before.children != [] && metricData != [] {
      forall k | k in Names(metricData) && !IsRelative(attributeTypes.nodes.value, k)
        ensures after.attributes.value[k] == Total(AttributesOf(leaves), k)
      {
      }
    }
  }

  /** The node at any position after aggregation is its node before, aggregated. */
  lemma AggregatedAt(n: Node, metricData: seq<MetricData>, edgeMetricData: seq<MetricData>,
                     isDeltaState: bool, attributeTypes: AttributeTypes, p: Pos)
    requires AggregationReady(n, metricData, edgeMetricData, isDeltaState, attributeTypes)
    requires ValidPos(n, p)
    ensures
      var r := DecorateParentNodesWithAggregatedAttributes(Some(n), [], metricData, edgeMetricData, isDeltaState, attributeTypes).value;
      ValidPos(r, p) && AggregatedFrom(At(n, p), At(r, p), metricData, edgeMetricData, isDeltaState, attributeTypes)
  {
    var f := Aggregator(metricData, edgeMetricData, isDeltaState, attributeTypes);
    MapNodesAt(n, f, p);
    ReadyAt(n, metricData, edgeMetricData, isDeltaState, attributeTypes, p);
    AggregatedMapNodes(At(n, p), metricData, edgeMetricData, isDeltaState, attributeTypes);
  }

  /** Aggregating a whole subtree does to its root what the callback does. */
  lemma AggregatedMapNodes(before: Node, metricData: seq<MetricData>, edgeMetricData: seq<MetricData>,
                           isDeltaState: bool, attributeTypes: AttributeTypes)
    requires AggregationReady(before, metricData, edgeMetricData, isDeltaState, attributeTypes)
    ensures AggregatedFrom(before, MapNodes(before, Aggregator(metricData, edgeMetricData, isDeltaState, attributeTypes)),
                           metricData, edgeMetricData, isDeltaState, attributeTypes)
  {
    var f := Aggregator(metricData, edgeMetricData, isDeltaState, attributeTypes);
    AggregateNodeAggregates(before, metricData, edgeMetricData, isDeltaState, attributeTypes);
    AggregatedFromLocal(before, f(before), MapNodes(before, f), metricData, edgeMetricData, isDeltaState, attributeTypes);
  }

  /** `AggregatedFrom` only looks at the node's own fields, and at a leaf's children. */
  lemma AggregatedFromLocal(before: Node, a: Node, b: Node, metricData: seq<MetricData>, edgeMetricData: seq<MetricData>,
                            isDeltaState: bool, attributeTypes: AttributeTypes)
    requires AggregatedFrom(before, a, metricData, edgeMetricData, isDeltaState, attributeTypes)
    requires Local(a) == Local(b) && (before.children == [] ==> a == b)
    ensures AggregatedFrom(before, b, metricData, edgeMetricData, isDeltaState, attributeTypes)
  {
    assert a.attributes == b.attributes && a.deltas == b.deltas && a.edgeAttributes == b.edgeAttributes;
  }

  lemma {:induction false} ReadyAt(n: Node, metricData: seq<MetricData>, edgeMetricData: seq<MetricData>,
                                   isDeltaState: bool, attributeTypes: AttributeTypes, p: Pos)
    requires AggregationReady(n, metricData, edgeMetricData, isDeltaState, attributeTypes)
    requires ValidPos(n, p)
    ensures AggregationReady(At(n, p), metricData, edgeMetricData, isDeltaState, attributeTypes)
  {
    if p != [] {
      ReadyAt(n.children[p[0]], metricData, edgeMetricData, isDeltaState, attributeTypes, p[1..]);
    }
  }

  /** Writing the same aggregates twice is writing them once. */
  lemma WriteMetricsTwice(target: Metrics, leafMaps: seq<Metrics>, metricData: seq<MetricData>, attributeTypes: AttributeTypes)
    requires attributeTypes.nodes.Some?
    ensures WriteMetrics(WriteMetrics(target, leafMaps, metricData, attributeTypes), leafMaps, metricData, attributeTypes)
         == WriteMetrics(target, leafMaps, metricData, attributeTypes)
  {
  }

  lemma WriteEdgeMetricsTwice(target: EdgeMetrics, leafMaps: seq<EdgeMetrics>, edgeMetricData: seq<MetricData>, attributeTypes: AttributeTypes)
    requires attributeTypes.edges.Some?
    ensures WriteEdgeMetrics(WriteEdgeMetrics(target, leafMaps, edgeMetricData, attributeTypes), leafMaps, edgeMetricData, attributeTypes)
         == WriteEdgeMetrics(target, leafMaps, edgeMetricData, attributeTypes)
  {
  }

  /** A node that already holds the aggregates over the same leaves is left as it is. */
  lemma AggregateNodeStable(n: Node, x: Node, metricData: seq<MetricData>, edgeMetricData: seq<MetricData>,
                            isDeltaState: bool, attributeTypes: AttributeTypes)
    requires n.children != [] && x.children != []
    requires IncludedLeaves(x) == IncludedLeaves(n)
    requires Local(x) == Local(AggregateNode(n, metricData, edgeMetricData, isDeltaState, attributeTypes))
    ensures AggregateNode(x, metricData, edgeMetricData, isDeltaState, attributeTypes) == x
  {
    var leaves := IncludedLeaves(n);
    var a := AggregateNode(n, metricData, edgeMetricData, isDeltaState, attributeTypes);
    assert x.attributes == a.attributes && x.deltas == a.deltas && x.edgeAttributes == a.edgeAttributes;
    if metricData != [] && attributeTypes.nodes.Some? {
      WriteMetricsTwice(n.attributes.GetOr(map[]), AttributesOf(leaves), metricData, attributeTypes);
      WriteMetricsTwice(n.deltas.GetOr(map[]), DeltasOf(leaves), metricData, attributeTypes);
    }
    assert AggregatedAttributes(x.attributes, leaves, metricData, attributeTypes) == x.attributes;
    assert AggregatedDeltas(x.deltas, leaves, metricData, isDeltaState, attributeTypes) == x.deltas;
    if edgeMetricData != [] && attributeTypes.edges.Some? {
      WriteEdgeMetricsTwice(n.edgeAttributes.GetOr(map[]), EdgeAttributesOf(leaves), edgeMetricData, attributeTypes);
    }
    assert AggregatedEdgeAttributes(x.edgeAttributes, leaves, edgeMetricData, attributeTypes) == x.edgeAttributes;
  }

  /** Aggregating an aggregated tree again with the same inputs changes nothing. */
  lemma {:induction false} AggregationIdempotent(n: Node, metricData: seq<MetricData>, edgeMetricData: seq<MetricData>,
                                                 isDeltaState: bool, attributeTypes: AttributeTypes)
    ensures
      var f := Aggregator(metricData, edgeMetricData, isDeltaState, attributeTypes);
      MapNodes(MapNodes(n, f), f) == MapNodes(n, f)
  {
    var f := Aggregator(metricData, edgeMetricData, isDeltaState, attributeTypes);
    var once := MapNodes(n, f);
    forall i | 0 <= i < |n.children|
      ensures MapNodes(once.children[i], f) == once.children[i]
    {
      AggregationIdempotent(n.children[i], metricData, edgeMetricData, isDeltaState, attributeTypes);
    }
    var again := seq(|once.children|, i requires 0 <= i < |once.children| => MapNodes(once.children[i], f));
    assert again == once.children;
    if n.children != [] {
      MapNodesLeaves(n, f);
      AggregateNodeStable(n, once, metricData, edgeMetricData, isDeltaState, attributeTypes);
    }
    assert f(once) == AggregateNode(once, metricData, edgeMetricData, isDeltaState, attributeTypes);
    assert MapNodes(once, f) == f(once).(children := again);
  }

  /** The sum of a metric over the non-excluded leaves of a subtree, a missing value counting as 0. */
  function LeafTotal(n: Node, metricName: string): real {
    Total(AttributesOf(IncludedLeaves(n)), metricName)
  }

  function ChildrenTotal(cs: seq<Node>, metricName: string): real {
    if cs == [] then 0.0 else LeafTotal(cs[0], metricName) + ChildrenTotal(cs[1..], metricName)
  }

  lemma {:induction false} TotalAppend(a: seq<Metrics>, b: seq<Metrics>, metricName: string)
    ensures Total(a + b, metricName) == Total(a, metricName) + Total(b, metricName)
  {
    if a == [] {
      assert a + b == b;
    } else {
      assert (a + b)[0] == a[0] && (a + b)[1..] == a[1..] + b;
      TotalAppend(a[1..], b, metricName);
    }
  }

  lemma {:induction false} NotExcludedAppend(a: seq<Node>, b: seq<Node>)
    ensures NotExcluded(a + b) == NotExcluded(a) + NotExcluded(b)
  {
    if a == [] {
      assert a + b == b;
    } else {
      var head := if a[0].isExcluded then [] else [a[0]];
      assert (a + b)[0] == a[0] && (a + b)[1..] == a[1..] + b;
      assert NotExcluded(a + b) == head + NotExcluded(a[1..] + b);
      NotExcludedAppend(a[1..], b);
      AppendAssociative(head, NotExcluded(a[1..]), NotExcluded(b));
      assert NotExcluded(a) == head + NotExcluded(a[1..]);
    }
  }

  lemma {:induction false} AttributesOfAppend(a: seq<Node>, b: seq<Node>)
    ensures AttributesOf(a + b) == AttributesOf(a) + AttributesOf(b)
  {
    if a == [] {
      assert a + b == b;
    } else {
      assert (a + b)[0] == a[0] && (a + b)[1..] == a[1..] + b;
      AttributesOfAppend(a[1..], b);
    }
  }

  /** The leaf total of a forest is the sum of the leaf totals of its trees. */
  lemma {:induction false} LeafTotalOfChildren(cs: seq<Node>, metricName: string)
    ensures Total(AttributesOf(NotExcluded(LeavesOf(cs))), metricName) == ChildrenTotal(cs, metricName)
  {
    if cs != [] {
      var first, rest := Leaves(cs[0]), LeavesOf(cs[1..]);
      NotExcludedAppend(first, rest);
      AttributesOfAppend(NotExcluded(first), NotExcluded(rest));
      TotalAppend(AttributesOf(NotExcluded(first)), AttributesOf(NotExcluded(rest)), metricName);
      LeafTotalOfChildren(cs[1..], metricName);
    }
  }

  /**
   * What a child adds to its parent's sum once the tree is aggregated: a folder its own
   * (aggregated) value, a file its value unless it is excluded.
   */
  function Contribution(c: Node, metricName: string): real {
    var attributes := c.attributes.GetOr(map[]);
    if c.children == [] && c.isExcluded then 0.0
    else if metricName in attributes then attributes[metricName]
    else 0.0
  }

  function Contributions(cs: seq<Node>, metricName: string): real {
    if cs == [] then 0.0 else Contribution(cs[0], metricName) + Contributions(cs[1..], metricName)
  }

  lemma {:induction false} ContributionsPointwise(xs: seq<Node>, ys: seq<Node>, metricName: string)
    requires |xs| == |ys|
    requires forall i :: 0 <= i < |xs| ==> LeafTotal(xs[i], metricName) == Contribution(ys[i], metricName)
    ensures ChildrenTotal(xs, metricName) == Contributions(ys, metricName)
  {
    if xs != [] {
      ContributionsPointwise(xs[1..], ys[1..], metricName);
    }
  }

  /** A file's leaf total is its own value, or 0 when it is excluded or has none. */
  lemma LeafTotalOfFile(l: Node, metricName: string)
    requires l.children == []
    ensures LeafTotal(l, metricName) == Contribution(l, metricName)
  {
    assert Leaves(l) == [l];
    assert [l][1..] == [];
    if l.isExcluded {
      assert IncludedLeaves(l) == [];
    } else {
      assert IncludedLeaves(l) == [l];
      var m := l.attributes.GetOr(map[]);
      assert AttributesOf([l]) == [m];
      assert [m][1..] == AttributesOf([]);
      assert Total([m], metricName) == (if metricName in m then m[metricName] else 0.0) + Total([], metricName);
    }
  }

  /**
   * The part of `AggregatedAt` the sum invariant needs: at a node with children an absolute
   * metric holds the leaf total, and a file is unchanged.
   */
  lemma TotalAt(n: Node, metricData: seq<MetricData>, edgeMetricData: seq<MetricData>,
                isDeltaState: bool, attributeTypes: AttributeTypes, p: Pos, metricName: string)
    requires AggregationReady(n, metricData, edgeMetricData, isDeltaState, attributeTypes)
    requires ValidPos(n, p) && metricName in Names(metricData)
    requires attributeTypes.nodes.Some? && !IsRelative(attributeTypes.nodes.value, metricName)
    ensures
      var r := DecorateParentNodesWithAggregatedAttributes(Some(n), [], metricData, edgeMetricData, isDeltaState, attributeTypes).value;
      && ValidPos(r, p)
      && (At(n, p).children == [] ==> At(r, p) == At(n, p))
      && (At(n, p).children != [] ==>
            && At(r, p).children != [] && At(r, p).attributes.Some? && metricName in At(r, p).attributes.value
            && At(r, p).attributes.value[metricName] == LeafTotal(At(n, p), metricName))
  {
    var f := Aggregator(metricData, edgeMetricData, isDeltaState, attributeTypes);
    MapNodesAt(n, f, p);
    ReadyAt(n, metricData, edgeMetricData, isDeltaState, attributeTypes, p);
    var before := At(n, p);
    if before.children != [] {
      var leafMaps := AttributesOf(IncludedLeaves(before));
      var written := WriteMetrics(before.attributes.GetOr(map[]), leafMaps, metricData, attributeTypes);
      assert f(before).attributes == Some(written);
      assert written[metricName] == AggregateLeafMetric(leafMaps, metricName, attributeTypes);
    }
  }

  /**
   * What one child of an aggregated node contributes is the leaf total of the child before:
   * a file is unchanged, and a folder holds its leaf total after aggregation.
   */
  lemma ChildContribution(before: Node, after: Node, metricName: string)
    requires before.children == [] ==> after == before
    requires before.children != [] ==>
      && after.children != [] && after.attributes.Some? && metricName in after.attributes.value
      && after.attributes.value[metricName] == LeafTotal(before, metricName)
    ensures LeafTotal(before, metricName) == Contribution(after, metricName)
  {
    if before.children == [] {
      LeafTotalOfFile(before, metricName);
    }
  }

  /**
   * The sum invariant one level at a time: after aggregation, an absolute (or unclassified)
   * metric of a node with children equals the sum of what its children hold, folders
   * counting with their aggregated value and files with their own value unless excluded.
   */
  lemma SumOfChildren(n: Node, metricData: seq<MetricData>, edgeMetricData: seq<MetricData>,
                      isDeltaState: bool, attributeTypes: AttributeTypes, metricName: string)
    requires AggregationReady(n, metricData, edgeMetricData, isDeltaState, attributeTypes)
    requires n.children != [] && metricName in Names(metricData)
    requires attributeTypes.nodes.Some? && !IsRelative(attributeTypes.nodes.value, metricName)
    ensures
      var r := DecorateParentNodesWithAggregatedAttributes(Some(n), [], metricData, edgeMetricData, isDeltaState, attributeTypes).value;
      r.attributes.Some? && metricName in r.attributes.value
      && r.attributes.value[metricName] == Contributions(r.children, metricName)
  {
    var r := DecorateParentNodesWithAggregatedAttributes(Some(n), [], metricData, edgeMetricData, isDeltaState, attributeTypes).value;
    TotalAt(n, metricData, edgeMetricData, isDeltaState, attributeTypes, [], metricName);
    assert At(r, []) == r && At(n, []) == n;
    var total := r.attributes.value[metricName];
    assert total == LeafTotal(n, metricName);
    LeafTotalOfChildren(n.children, metricName);
    assert |r.children| == |n.children|;
    forall i | 0 <= i < |n.children|
      ensures LeafTotal(n.children[i], metricName) == Contribution(r.children[i], metricName)
    {
      ChildAt(n, metricData, edgeMetricData, isDeltaState, attributeTypes, metricName, i);
    }
    ContributionsPointwise(n.children, r.children, metricName);
    assert total == Contributions(r.children, metricName);
  }

  lemma ChildAt(n: Node, metricData: seq<MetricData>, edgeMetricData: seq<MetricData>,
                isDeltaState: bool, attributeTypes: AttributeTypes, metricName: string, i: nat)
    requires AggregationReady(n, metricData, edgeMetricData, isDeltaState, attributeTypes)
    requires i < |n.children| && metricName in Names(metricData)
    requires attributeTypes.nodes.Some? && !IsRelative(attributeTypes.nodes.value, metricName)
    ensures
      var r := DecorateParentNodesWithAggregatedAttributes(Some(n), [], metricData, edgeMetricData, isDeltaState, attributeTypes).value;
      i < |r.children| && LeafTotal(n.children[i], metricName) == Contribution(r.children[i], metricName)
  {
    var r := DecorateParentNodesWithAggregatedAttributes(Some(n), [], metricData, edgeMetricData, isDeltaState, attributeTypes).value;
    TotalAt(n, metricData, edgeMetricData, isDeltaState, attributeTypes, [i], metricName);
    assert At(r, [i]) == r.children[i] && At(n, [i]) == n.children[i];
    ChildContribution(n.children[i], r.children[i], metricName);
  }
}
