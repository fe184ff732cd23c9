/**
  Metric records produced by the tree walk, and the character rewriting
  that turns their names and labels into exposition-safe strings
  (pkg/collector/metric.go, with the replacer tables of tree.go).
 */
module Metric {
  import opened Telemetry

  datatype Label = Label(key: string, value: string)

  /** A record emitted for one node that holds a value: its `/`-joined
      name, its labels and the raw value (nil when the value was nil). */
  datatype Metric = Metric(name: string, labels: seq<Label>, value: Option<Value>)

  /** The name, help text and label keys that `describe` hands to the
      exposition library. */
  datatype Descriptor = Descriptor(fqName: string, help: string, labelKeys: seq<string>)

  /** `metricNameReplacer`: `/` and `-` become `_`, `'` is deleted. */
  function MetricNameReplace(s: string): (r: string)
    ensures '/' !in r && '-' !in r && '\'' !in r
    decreases |s|
  {
    if s == [] then ""
    else
      assert s == [s[0]] + s[1..];
      var rest := MetricNameReplace(s[1..]);
      if s[0] == '\'' then rest
      else if s[0] == '/' || s[0] == '-' then "_" + rest
      else [s[0]] + rest
  }

  /** `labelKeyReplacer`: `-` becomes `_`, `'` is deleted. */
  function LabelKeyReplace(s: string): (r: string)
    ensures '-' !in r && '\'' !in r
    ensures |r| == |s| - multiset(s)['\'']
    decreases |s|
  {
    if s == [] then ""
    else
      assert s == [s[0]] + s[1..];
      var rest := LabelKeyReplace(s[1..]);
      if s[0] == '\'' then rest
      else if s[0] == '-' then "_" + rest
      else [s[0]] + rest
  }

  /** `labelValueReplacer`: `'` is deleted. */
  function LabelValueReplace(s: string): (r: string)
    ensures '\'' !in r
    ensures |r| == |s| - multiset(s)['\'']
    ensures multiset(r) == multiset(s)[ '\'' := 0]
    decreases |s|
  {
    if s == [] then ""
    else
      assert s == [s[0]] + s[1..];
      var rest := LabelValueReplace(s[1..]);
      if s[0] == '\'' then rest
      else [s[0]] + rest
  }

  /** The name rewriting works character by character, so it distributes
      over concatenation. */
  lemma {:induction false} MetricNameReplaceAppend(a: string, b: string)
    ensures MetricNameReplace(a + b) == MetricNameReplace(a) + MetricNameReplace(b)
    decreases |a|
  {
    if a == [] {
      assert a + b == b;
    } else {
      assert (a + b)[0] == a[0] && (a + b)[1..] == a[1..] + b;
      MetricNameReplaceAppend(a[1..], b);
    }
  }

  /** Only quotes are deleted: the rewritten name is shorter by the number
      of quotes, every other character mapping to exactly one. */
  lemma {:induction false} MetricNameReplaceLength(s: string)
    ensures |MetricNameReplace(s)| == |s| - multiset(s)['\'']
    decreases |s|
  {
    if s != [] {
      MetricNameReplaceLength(s[1..]);
      assert s == [s[0]] + s[1..];
    }
  }

  /** A name without `/`, `-` or `'` is left as it is. */
  lemma {:induction false} MetricNameReplaceClean(s: string)
    requires '/' !in s && '-' !in s && '\'' !in s
    ensures MetricNameReplace(s) == s
    decreases |s|
  {
    if s != [] {
      MetricNameReplaceClean(s[1..]);
      assert s == [s[0]] + s[1..];
    }
  }

  lemma {:induction false} LabelKeyReplaceClean(s: string)
    requires '-' !in s && '\'' !in s
    ensures LabelKeyReplace(s) == s
    decreases |s|
  {
    if s != [] {
      LabelKeyReplaceClean(s[1..]);
      assert s == [s[0]] + s[1..];
    }
  }

  lemma {:induction false} LabelValueReplaceClean(s: string)
    requires '\'' !in s
    ensures LabelValueReplace(s) == s
    decreases |s|
  {
    if s != [] {
      LabelValueReplaceClean(s[1..]);
      assert s == [s[0]] + s[1..];
    }
  }

  /** `promName`: rewriting is idempotent, so an already rewritten name is
      a fixed point. */
  function PromName(m: Metric): (r: string)
    ensures '/' !in r && '-' !in r && '\'' !in r
    ensures MetricNameReplace(r) == r
  {
    var r := MetricNameReplace(m.name);
    MetricNameReplaceClean(r);
    r
  }

  /** `labelKeys`. */
  function LabelKeys(m: Metric): (r: seq<string>)
    ensures |r| == |m.labels|
    ensures forall i :: 0 <= i < |r| ==> r[i] == m.labels[i].key
  {
    seq(|m.labels|, i requires 0 <= i < |m.labels| => m.labels[i].key)
  }

  /** `labelValues`. */
  function LabelValues(m: Metric): (r: seq<string>)
    ensures |r| == |m.labels|
    ensures forall i :: 0 <= i < |r| ==> r[i] == m.labels[i].value
  {
    seq(|m.labels|, i requires 0 <= i < |m.labels| => m.labels[i].value)
  }

  /** `promLabelKeys`: every key rewritten, same length and order. */
  function PromLabelKeys(m: Metric): (r: seq<string>)
    ensures |r| == |m.labels|
    ensures forall i :: 0 <= i < |r| ==> r[i] == LabelKeyReplace(m.labels[i].key)
    ensures forall i :: 0 <= i < |r| ==> '-' !in r[i] && '\'' !in r[i]
  {
    var keys := LabelKeys(m);
    seq(|keys|, i requires 0 <= i < |keys| => LabelKeyReplace(keys[i]))
  }

  /** `promLabelValues`: every value has its quotes removed, same length
      and order. */
  function PromLabelValues(m: Metric): (r: seq<string>)
    ensures |r| == |m.labels|
    ensures forall i :: 0 <= i < |r| ==> r[i] == LabelValueReplace(m.labels[i].value)
    ensures forall i :: 0 <= i < |r| ==> '\'' !in r[i]
  {
    var values := LabelValues(m);
    seq(|values|, i requires 0 <= i < |values| => LabelValueReplace(values[i]))
  }

  /** `describe`: the descriptor built from the rewritten name and keys. */
  function Describe(m: Metric): (d: Descriptor)
    ensures d.fqName == PromName(m) && d.help == m.name && d.labelKeys == PromLabelKeys(m)
    ensures '/' !in d.fqName && '-' !in d.fqName && '\'' !in d.fqName
    ensures |d.labelKeys| == |m.labels|
    ensures forall i :: 0 <= i < |m.labels| ==> d.labelKeys[i] == LabelKeyReplace(m.labels[i].key)
  {
    Descriptor(PromName(m), m.name, PromLabelKeys(m))
  }
}
