/**
 * The metrics the source-code parser collects for one file: a mutable map from metric name
 * to value. Values are left abstract (`V`, Java's `Serializable`); a missing key is `None`
 * (Kotlin `null`).
 */
module FileMetricsModel {
  import opened Wrappers

  class FileMetrics<V> {
    var metricsMap: map<string, V>

    /** A new instance has no metrics. */
    constructor ()
      ensures metricsMap == map[]
      ensures forall key :: Get(key) == None
    {
      metricsMap := map[];
    }

    /** `add`: the key now maps to the value, replacing an earlier one; other keys keep theirs. */
    method Add(key: string, value: V)
      modifies this
      ensures metricsMap == old(metricsMap)[key := value]
      ensures Get(key) == Some(value)
      ensures forall k :: k != key ==> Get(k) == old(Get(k))
    {
      metricsMap := metricsMap[key := value];
    }

    /** `get`: the value stored under the key, or `null`. */
    function Get(key: string): (r: Option<V>)
      reads this
      ensures r.Some? <==> key in metricsMap
      ensures r.Some? ==> r.value == metricsMap[key]
    {
      if key in metricsMap then Some(metricsMap[key]) else None
    }
  }

  /** Two values added under one key: the second replaces the first. */
  method AddTwice<V>(metrics: FileMetrics<V>, key: string, first: V, second: V)
    modifies metrics
    ensures metrics.Get(key) == Some(second)
    ensures forall k :: k != key ==> metrics.Get(k) == old(metrics.Get(k))
  {
    metrics.Add(key, first);
    metrics.Add(key, second);
  }
}
