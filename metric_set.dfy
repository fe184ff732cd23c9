/**
  The append-only buffer that the tree walk fills with records
  (pkg/collector/metric_set.go).
 */
module MetricSets {
  import opened Metric

  class MetricSet {
    var metrics: seq<Metric>

    /** `newMetricSet`: an empty set. */
    constructor ()
      ensures metrics == []
    {
      metrics := [];
    }

    /** `append`: one more record at the end, earlier records untouched. */
    method Append(m: Metric)
      modifies this
      ensures metrics == old(metrics) + [m]
      ensures |metrics| == |old(metrics)| + 1 && metrics[|metrics| - 1] == m
      ensures forall i :: 0 <= i < |old(metrics)| ==> metrics[i] == old(metrics)[i]
    {
      metrics := metrics + [m];
    }

    /** `get`: the records in append order; nothing changes. */
    method Get() returns (ms: seq<Metric>)
      ensures ms == metrics
    {
      ms := metrics;
    }
  }
}
