/**
 * Worked examples of the aggregation rules: medians of two and three values, a relative
 * metric over three files, and the different treatment of zeros by node and edge metrics.
 */
module AggregationExamples {
  import opened Wrappers
  import opened CodeChartaModel
  import opened Hierarchy
  import opened LeafAggregation
  import opened Aggregation

  /** The median of two values, in either order (10 and 20, say), is their mean. */
  lemma MedianOfTwo(values: seq<real>)
    requires |values| == 2
    ensures Median(values) == (values[0] + values[1]) / 2.0
  {
    var sorted := if values[0] <= values[1] then values else [values[1], values[0]];
    assert values == [values[0]] + [values[1]];
    assert sorted == [sorted[0]] + [sorted[1]];
    MedianOfSorted(values, sorted);
  }

  /**
   * The median of three values in any order (90, 50 and 70, say) is the middle one: `values`
   * holds `low`, `middle` and `high`, arranged in whichever order.
   */
  lemma MedianOfThree(values: seq<real>, low: real, middle: real, high: real)
    requires |values| == 3 && multiset(values) == multiset{low, middle, high}
    requires low <= middle <= high
    ensures Median(values) == middle
  {
    var sorted := [low, middle, high];
    assert sorted == [low] + [middle] + [high];
    MedianOfSorted(values, sorted);
  }

  /**
   * A relative metric over three files whose values are non-zero, in any order (coverage 90,
   * 50 and 70, say), aggregates to the middle value.
   */
  lemma RelativeAggregateExample(metrics: seq<Metrics>, name: string, values: seq<real>,
                                 low: real, middle: real, high: real, attributeTypes: AttributeTypes)
    requires |metrics| == 3 && |values| == 3
    requires forall i :: 0 <= i < 3 ==> metrics[i] == map[name := values[i]]
    requires multiset(values) == multiset{low, middle, high} && 0.0 < low <= middle <= high
    requires attributeTypes.nodes == Some(map[name := Relative])
    ensures AggregateLeafMetric(metrics, name, attributeTypes) == middle
  {
    assert values[0] in multiset(values) && values[1] in multiset(values) && values[2] in multiset(values);
    TruthyOfNonZero(metrics, name, values);
    MedianOfThree(values, low, middle, high);
    RelativeMetric(metrics, name, attributeTypes);
  }

  /** A relative node metric over the values 0, x and y (0 < x <= y) ignores the 0: the mean of x and y. */
  lemma ZeroDroppedByNodeMetric(metrics: seq<Metrics>, name: string, x: real, y: real, attributeTypes: AttributeTypes)
    requires 0.0 < x <= y
    requires |metrics| == 3 && metrics[0] == map[name := 0.0] && metrics[1] == map[name := x] && metrics[2] == map[name := y]
    requires attributeTypes.nodes == Some(map[name := Relative])
    ensures AggregateLeafMetric(metrics, name, attributeTypes) == (x + y) / 2.0
  {
    var nonZero := TruthyValues(metrics, name);
    TruthyOfNonZero(metrics[1..], name, [x, y]);
    assert nonZero == [x, y];
    assert nonZero == [nonZero[0]] + [nonZero[1]];
    MedianOfSorted(nonZero, nonZero);
    RelativeMetric(metrics, name, attributeTypes);
  }

  /** A relative edge metric over the values 0, x and y (0 < x <= y) keeps the 0: incoming x, the middle value. */
  lemma ZeroKeptByEdgeMetric(edgeMaps: seq<EdgeMetrics>, name: string, x: real, y: real, attributeTypes: AttributeTypes)
    requires 0.0 < x <= y
    requires |edgeMaps| == 3 && edgeMaps[0] == map[name := EdgeMetricCount(0.0, 0.0)]
    requires edgeMaps[1] == map[name := EdgeMetricCount(x, x)] && edgeMaps[2] == map[name := EdgeMetricCount(y, y)]
    requires attributeTypes.edges == Some(map[name := Relative])
    ensures AggregateLeafEdgeMetric(edgeMaps, name, attributeTypes).incoming == x
  {
    var counts := [EdgeMetricCount(0.0, 0.0), EdgeMetricCount(x, x), EdgeMetricCount(y, y)];
    EntriesOfPresent(edgeMaps, name, counts);
    var incoming := Incomings(counts);
    assert incoming == [incoming[0]] + [incoming[1]] + [incoming[2]];
    MedianOfSorted(incoming, incoming);
    RelativeEdgeMetric(edgeMaps, name, attributeTypes);
  }
}
