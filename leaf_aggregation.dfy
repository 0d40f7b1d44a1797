/**
 * How a container's metric is computed from the metric maps of its leaves
 * (`aggregateLeafMetric`, `aggregateLeafEdgeMetric` and `median` of the node decorator):
 * absolute and unclassified metrics are summed, relative ones take the median.
 */
module LeafAggregation {
  import opened Wrappers
  import opened CodeChartaModel

  /** `reduce((partialSum, a) => partialSum + a)`. */
  function Sum(xs: seq<real>): real {
    if xs == [] then 0.0 else xs[0] + Sum(xs[1..])
  }

  predicate SortedAscending(s: seq<real>) {
    forall i, j :: 0 <= i < j < |s| ==> s[i] <= s[j]
  }

  /** Inserting `x` into an ascending sequence at its place keeps it ascending. */
  function Insert(x: real, s: seq<real>): (r: seq<real>)
    requires SortedAscending(s)
    ensures SortedAscending(r)
    ensures multiset(r) == multiset(s) + multiset{x}
  {
    if s == [] || x <= s[0] then
      SortedCons(x, s);
      [x] + s
    else
      assert s == [s[0]] + s[1..];
      var rest := Insert(x, s[1..]);
      BelowAll(s[0], x, s[1..], rest);
      SortedCons(s[0], rest);
      [s[0]] + rest
  }

  lemma SortedCons(h: real, s: seq<real>)
    requires SortedAscending(s)
    requires forall j :: 0 <= j < |s| ==> h <= s[j]
    ensures SortedAscending([h] + s)
  {
    forall i, j | 0 <= i < j < |[h] + s|
      ensures ([h] + s)[i] <= ([h] + s)[j]
    {
      assert ([h] + s)[j] == s[j - 1];
      if i > 0 {
        assert ([h] + s)[i] == s[i - 1];
      }
    }
  }

  lemma BelowAll(h: real, x: real, s: seq<real>, r: seq<real>)
    requires h <= x
    requires SortedAscending([h] + s)
    requires multiset(r) == multiset(s) + multiset{x}
    ensures forall j :: 0 <= j < |r| ==> h <= r[j]
  {
    forall j | 0 <= j < |r|
      ensures h <= r[j]
    {
      assert r[j] in multiset(r);
      if r[j] != x {
        assert r[j] in multiset(s);
        var k :| 0 <= k < |s| && s[k] == r[j];
        assert ([h] + s)[0] == h && ([h] + s)[k + 1] == s[k];
      }
    }
  }

  /** `sort((a, b) => a - b)`: the same values in ascending order. */
  function SortAscending(s: seq<real>): (r: seq<real>)
    ensures SortedAscending(r)
    ensures multiset(r) == multiset(s)
  {
    if s == [] then []
    else
      assert s == [s[0]] + s[1..];
      Insert(s[0], SortAscending(s[1..]))
  }

  /** Two ascending sequences with the same elements are the same sequence. */
  lemma {:induction false} SortedUnique(a: seq<real>, b: seq<real>)
    requires SortedAscending(a) && SortedAscending(b)
    requires multiset(a) == multiset(b)
    ensures a == b
  {
    assert |b| == |multiset(b)| == |multiset(a)| == |a|;
    if a != [] {
      SameHead(a, b);
      SameHead(b, a);
      assert a == [a[0]] + a[1..];
      assert b == [b[0]] + b[1..];
      assert multiset(a) == multiset{a[0]} + multiset(a[1..]);
      assert multiset(b) == multiset{b[0]} + multiset(b[1..]);
      assert a[0] == b[0];
      assert multiset(a[1..]) == multiset(a) - multiset{a[0]};
      assert multiset(b[1..]) == multiset(b) - multiset{b[0]};
      SortedUnique(a[1..], b[1..]);
    }
  }

  /** The first element of an ascending sequence is at most every element of a permutation of it. */
  lemma SameHead(a: seq<real>, b: seq<real>)
    requires SortedAscending(a) && |a| > 0 && |b| > 0
    requires multiset(a) == multiset(b)
    ensures a[0] <= b[0]
  {
    assert b[0] in multiset(a);
    var k :| 0 <= k < |a| && a[k] == b[0];
  }

  /** Sorting gives the one ascending arrangement of the values. */
  lemma SortAscendingIs(s: seq<real>, t: seq<real>)
    requires SortedAscending(t) && multiset(s) == multiset(t)
    ensures SortAscending(s) == t
  {
    SortedUnique(SortAscending(s), t);
  }

  /** The median can be read off any ascending arrangement of the values. */
  lemma MedianOfSorted(numbers: seq<real>, sorted: seq<real>)
    requires |numbers| > 0 && SortedAscending(sorted) && multiset(numbers) == multiset(sorted)
    ensures |sorted| == |numbers|
    ensures Median(numbers) == (sorted[(|sorted| - 1) / 2] + sorted[|sorted| / 2]) / 2.0
  {
    assert |sorted| == |multiset(sorted)| == |multiset(numbers)| == |numbers|;
    SortAscendingIs(numbers, sorted);
  }

  function MinOf(s: seq<real>): (m: real)
    requires |s| > 0
    ensures m in s && forall i :: 0 <= i < |s| ==> m <= s[i]
  {
    if |s| == 1 then s[0]
    else
      var rest := MinOf(s[1..]);
      if s[0] <= rest then s[0] else rest
  }

  function MaxOf(s: seq<real>): (m: real)
    requires |s| > 0
    ensures m in s && forall i :: 0 <= i < |s| ==> s[i] <= m
  {
    if |s| == 1 then s[0]
    else
      var rest := MaxOf(s[1..]);
      if s[0] >= rest then s[0] else rest
  }

  /**
   * `median`: sort ascending, then average the elements at floor((n-1)/2) and ceil((n-1)/2).
   * The result lies between the smallest and the largest value, and for an odd count it is
   * one of the values.
   */
  function Median(numbers: seq<real>): (m: real)
    requires |numbers| > 0
    ensures MinOf(numbers) <= m <= MaxOf(numbers)
    ensures |numbers| % 2 == 1 ==> m in numbers
  {
    var sorted := SortAscending(numbers);
    MiddleBounds(numbers, sorted);
    Middle(sorted)
  }

  /** The average of the two middle elements, which are one element for an odd count. */
  function Middle(sorted: seq<real>): real
    requires |sorted| > 0
  {
    (sorted[(|sorted| - 1) / 2] + sorted[|sorted| / 2]) / 2.0
  }

  lemma MiddleBounds(numbers: seq<real>, sorted: seq<real>)
    requires |numbers| > 0 && multiset(sorted) == multiset(numbers)
    ensures |sorted| == |numbers|
    ensures MinOf(numbers) <= Middle(sorted) <= MaxOf(numbers)
    ensures |numbers| % 2 == 1 ==> Middle(sorted) in numbers
  {
    assert |sorted| == |multiset(sorted)| == |numbers|;
    var lo, hi := sorted[(|sorted| - 1) / 2], sorted[|sorted| / 2];
    assert lo in multiset(numbers) && hi in multiset(numbers);
    WithinBounds(numbers, lo);
    WithinBounds(numbers, hi);
    if |numbers| % 2 == 1 {
      assert (|sorted| - 1) / 2 == |sorted| / 2;
      assert Middle(sorted) == lo;
    }
  }

  lemma WithinBounds(s: seq<real>, x: real)
    requires x in s
    ensures MinOf(s) <= x <= MaxOf(s)
  {
    var k :| 0 <= k < |s| && s[k] == x;
  }

  /** The median does not depend on the order of the values. */
  lemma MedianIgnoresOrder(a: seq<real>, b: seq<real>)
    requires |a| > 0
    requires multiset(a) == multiset(b)
    ensures |b| > 0 && Median(a) == Median(b)
  {
    assert |b| == |multiset(b)| == |multiset(a)| == |a|;
    var sa, sb := SortAscending(a), SortAscending(b);
    SortedUnique(sa, sb);
    assert Median(a) == Middle(sa) && Median(b) == Middle(sb);
  }

  /** The values JavaScript keeps with `.filter(x => !!x)`: present and not 0, in leaf order. */
  function TruthyValues(metrics: seq<Metrics>, metricName: string): (r: seq<real>)
    ensures |r| <= |metrics|
    ensures forall i :: 0 <= i < |r| ==> r[i] != 0.0
  {
    if metrics == [] then []
    else
      var head := if metricName in metrics[0] && metrics[0][metricName] != 0.0 then [metrics[0][metricName]] else [];
      head + TruthyValues(metrics[1..], metricName)
  }

  /** The metric over all maps, a missing value counting as 0. */
  function Total(metrics: seq<Metrics>, metricName: string): real {
    if metrics == [] then 0.0
    else (if metricName in metrics[0] then metrics[0][metricName] else 0.0) + Total(metrics[1..], metricName)
  }

  lemma {:induction false} SumAppend(a: seq<real>, b: seq<real>)
    ensures Sum(a + b) == Sum(a) + Sum(b)
  {
    if a == [] {
      assert a + b == b;
    } else {
      assert (a + b)[0] == a[0];
      assert (a + b)[1..] == a[1..] + b;
      SumAppend(a[1..], b);
    }
  }

  /** Dropping the zeros and the missing values does not change a sum. */
  lemma {:induction false} SumOfTruthyIsTotal(metrics: seq<Metrics>, metricName: string)
    ensures Sum(TruthyValues(metrics, metricName)) == Total(metrics, metricName)
  {
    if metrics != [] {
      var head := if metricName in metrics[0] && metrics[0][metricName] != 0.0 then [metrics[0][metricName]] else [];
      SumAppend(head, TruthyValues(metrics[1..], metricName));
      SumOfTruthyIsTotal(metrics[1..], metricName);
    }
  }

  predicate IsRelative(types: map<string, AttributeTypeValue>, metricName: string) {
    metricName in types && types[metricName] == Relative
  }

  /**
   * `aggregateLeafMetric`: the leaves' values of one metric, zeros and missing values dropped,
   * summed for an absolute or unclassified metric and reduced to their median for a relative
   * one; 0 when no value is left. The source reads `attributeTypes.nodes` first, so it must
   * be there.
   */
  function AggregateLeafMetric(metrics: seq<Metrics>, metricName: string, attributeTypes: AttributeTypes): (r: real)
    requires attributeTypes.nodes.Some?
    ensures !IsRelative(attributeTypes.nodes.value, metricName) ==> r == Total(metrics, metricName)
    ensures IsRelative(attributeTypes.nodes.value, metricName) ==>
      if TruthyValues(metrics, metricName) == [] then r == 0.0
      else MinOf(TruthyValues(metrics, metricName)) <= r <= MaxOf(TruthyValues(metrics, metricName))
  {
    var values := TruthyValues(metrics, metricName);
    SumOfTruthyIsTotal(metrics, metricName);
    if |values| == 0 then 0.0
    else if IsRelative(attributeTypes.nodes.value, metricName) then Median(values)
    else Sum(values)
  }

  /** The entries some leaves hold for one edge metric, in leaf order (an entry is always truthy). */
  function EdgeEntries(edgeMaps: seq<EdgeMetrics>, metricName: string): seq<EdgeMetricCount> {
    if edgeMaps == [] then []
    else (if metricName in edgeMaps[0] then [edgeMaps[0][metricName]] else []) + EdgeEntries(edgeMaps[1..], metricName)
  }

  function Incomings(counts: seq<EdgeMetricCount>): (r: seq<real>)
    ensures |r| == |counts| && forall i :: 0 <= i < |counts| ==> r[i] == counts[i].incoming
  {
    if counts == [] then [] else [counts[0].incoming] + Incomings(counts[1..])
  }

  function Outgoings(counts: seq<EdgeMetricCount>): (r: seq<real>)
    ensures |r| == |counts| && forall i :: 0 <= i < |counts| ==> r[i] == counts[i].outgoing
  {
    if counts == [] then [] else [counts[0].outgoing] + Outgoings(counts[1..])
  }

  /** The incoming side over all edge maps, a missing entry counting as 0. */
  function IncomingTotal(edgeMaps: seq<EdgeMetrics>, metricName: string): real {
    if edgeMaps == [] then 0.0
    else (if metricName in edgeMaps[0] then edgeMaps[0][metricName].incoming else 0.0) + IncomingTotal(edgeMaps[1..], metricName)
  }

  function OutgoingTotal(edgeMaps: seq<EdgeMetrics>, metricName: string): real {
    if edgeMaps == [] then 0.0
    else (if metricName in edgeMaps[0] then edgeMaps[0][metricName].outgoing else 0.0) + OutgoingTotal(edgeMaps[1..], metricName)
  }

  lemma {:induction false} EdgeSumsAreTotals(edgeMaps: seq<EdgeMetrics>, metricName: string)
    ensures Sum(Incomings(EdgeEntries(edgeMaps, metricName))) == IncomingTotal(edgeMaps, metricName)
    ensures Sum(Outgoings(EdgeEntries(edgeMaps, metricName))) == OutgoingTotal(edgeMaps, metricName)
  {
    if edgeMaps != [] {
      var rest := EdgeEntries(edgeMaps[1..], metricName);
      EdgeSumsAreTotals(edgeMaps[1..], metricName);
      if metricName in edgeMaps[0] {
        var e := edgeMaps[0][metricName];
        assert EdgeEntries(edgeMaps, metricName) == [e] + rest;
        assert Incomings([e] + rest) == [e.incoming] + Incomings(rest);
        assert Outgoings([e] + rest) == [e.outgoing] + Outgoings(rest);
      } else {
        assert EdgeEntries(edgeMaps, metricName) == rest;
      }
    }
  }

  /**
   * `aggregateLeafEdgeMetric`: `incoming` and `outgoing` are aggregated separately, over the
   * leaves that hold an entry for the metric (zeros are kept here), by sum or median after
   * `attributeTypes.edges`; `{incoming: 0, outgoing: 0}` when no leaf holds one.
   */
  function AggregateLeafEdgeMetric(edgeMaps: seq<EdgeMetrics>, metricName: string, attributeTypes: AttributeTypes): (r: EdgeMetricCount)
    requires attributeTypes.edges.Some?
    ensures EdgeEntries(edgeMaps, metricName) == [] ==> r == EdgeMetricCount(0.0, 0.0)
    ensures !IsRelative(attributeTypes.edges.value, metricName) ==>
      r == EdgeMetricCount(IncomingTotal(edgeMaps, metricName), OutgoingTotal(edgeMaps, metricName))
    ensures IsRelative(attributeTypes.edges.value, metricName) && EdgeEntries(edgeMaps, metricName) != [] ==>
      && MinOf(Incomings(EdgeEntries(edgeMaps, metricName))) <= r.incoming <= MaxOf(Incomings(EdgeEntries(edgeMaps, metricName)))
      && MinOf(Outgoings(EdgeEntries(edgeMaps, metricName))) <= r.outgoing <= MaxOf(Outgoings(EdgeEntries(edgeMaps, metricName)))
  {
    var values := EdgeEntries(edgeMaps, metricName);
    var incoming := Incomings(values);
    var outgoing := Outgoings(values);
    EdgeSumsAreTotals(edgeMaps, metricName);
    if |values| == 0 then EdgeMetricCount(0.0, 0.0)
    else if IsRelative(attributeTypes.edges.value, metricName) then EdgeMetricCount(Median(incoming), Median(outgoing))
    else EdgeMetricCount(Sum(incoming), Sum(outgoing))
  }

  lemma RelativeMetric(metrics: seq<Metrics>, metricName: string, attributeTypes: AttributeTypes)
    requires attributeTypes.nodes.Some? && IsRelative(attributeTypes.nodes.value, metricName)
    requires TruthyValues(metrics, metricName) != []
    ensures AggregateLeafMetric(metrics, metricName, attributeTypes) == Median(TruthyValues(metrics, metricName))
  {
  }

  lemma RelativeEdgeMetric(edgeMaps: seq<EdgeMetrics>, metricName: string, attributeTypes: AttributeTypes)
    requires attributeTypes.edges.Some? && IsRelative(attributeTypes.edges.value, metricName)
    requires EdgeEntries(edgeMaps, metricName) != []
    ensures AggregateLeafEdgeMetric(edgeMaps, metricName, attributeTypes).incoming
         == Median(Incomings(EdgeEntries(edgeMaps, metricName)))
    ensures AggregateLeafEdgeMetric(edgeMaps, metricName, attributeTypes).outgoing
         == Median(Outgoings(EdgeEntries(edgeMaps, metricName)))
  {
  }

  /** The truthy values of maps that each hold a non-zero value of the metric are those values. */
  lemma {:induction false} TruthyOfNonZero(metrics: seq<Metrics>, metricName: string, values: seq<real>)
    requires |metrics| == |values|
    requires forall i :: 0 <= i < |metrics| ==>
      metricName in metrics[i] && metrics[i][metricName] == values[i] && values[i] != 0.0
    ensures TruthyValues(metrics, metricName) == values
  {
    if metrics != [] {
      TruthyOfNonZero(metrics[1..], metricName, values[1..]);
      assert values == [values[0]] + values[1..];
    }
  }

  /** One map contributes its value of the metric when that is present and not 0, and nothing otherwise. */
  lemma TruthyOfOne(m: Metrics, metricName: string)
    ensures TruthyValues([m], metricName) == if metricName in m && m[metricName] != 0.0 then [m[metricName]] else []
  {
    assert [m][1..] == [];
  }

  /** The filter works leaf by leaf: the values of two runs of leaves are those of the first, then those of the second. */
  lemma {:induction false} TruthyAppend(a: seq<Metrics>, b: seq<Metrics>, metricName: string)
    ensures TruthyValues(a + b, metricName) == TruthyValues(a, metricName) + TruthyValues(b, metricName)
  {
    if a == [] {
      assert a + b == b;
    } else {
      assert (a + b)[0] == a[0];
      assert (a + b)[1..] == a[1..] + b;
      TruthyAppend(a[1..], b, metricName);
    }
  }

  /** A value is kept exactly when it is not 0 and some leaf has it as its value of the metric. */
  lemma {:induction false} TruthyMembers(metrics: seq<Metrics>, metricName: string, x: real)
    ensures x in TruthyValues(metrics, metricName) <==>
      x != 0.0 && exists i :: 0 <= i < |metrics| && metricName in metrics[i] && metrics[i][metricName] == x
  {
    if metrics != [] {
      TruthyMembers(metrics[1..], metricName, x);
      if exists i :: 0 <= i < |metrics| && metricName in metrics[i] && metrics[i][metricName] == x {
        var i :| 0 <= i < |metrics| && metricName in metrics[i] && metrics[i][metricName] == x;
        if i > 0 {
          assert metrics[1..][i - 1] == metrics[i];
        }
      }
      if exists j :: 0 <= j < |metrics[1..]| && metricName in metrics[1..][j] && metrics[1..][j][metricName] == x {
        var j :| 0 <= j < |metrics[1..]| && metricName in metrics[1..][j] && metrics[1..][j][metricName] == x;
        assert metrics[j + 1] == metrics[1..][j];
      }
    }
  }

  /** When every edge map holds the metric, the entries are those of the maps, in order. */
  lemma {:induction false} EntriesOfPresent(edgeMaps: seq<EdgeMetrics>, metricName: string, counts: seq<EdgeMetricCount>)
    requires |edgeMaps| == |counts|
    requires forall i :: 0 <= i < |edgeMaps| ==> metricName in edgeMaps[i] && edgeMaps[i][metricName] == counts[i]
    ensures EdgeEntries(edgeMaps, metricName) == counts
  {
    if edgeMaps != [] {
      EntriesOfPresent(edgeMaps[1..], metricName, counts[1..]);
      assert counts == [counts[0]] + counts[1..];
    }
  }
}
