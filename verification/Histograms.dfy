/** The histograms of round-trip times: count, running average and maximum, per host and per network. */
module Histograms {
  datatype Histogram = Histogram(count: nat, average: real, maxSample: int)

  const EMPTY: Histogram := Histogram(0, 0.0, 0)

  function AddValue(h: Histogram, value: nat): Histogram {
    var n := h.count as real;
    Histogram(h.count + 1,
              h.average * (n / (n + 1.0)) + value as real / (n + 1.0),
              if value > h.maxSample then value else h.maxSample)
  }

  function AddTo<K(==)>(histograms: map<K, Histogram>, key: K, value: nat): map<K, Histogram> {
    histograms[key := AddValue(if key in histograms then histograms[key] else EMPTY, value)]
  }

  function Fill(values: seq<nat>): Histogram {
    if values == [] then EMPTY else AddValue(Fill(values[..|values| - 1]), values[|values| - 1])
  }

  function Sum(values: seq<nat>): nat {
    if values == [] then 0 else Sum(values[..|values| - 1]) + values[|values| - 1]
  }

  predicate IsMean(average: real, count: nat, sum: nat) {
    average * count as real == sum as real
  }

  // The running average is the mean
  lemma {:induction false} AverageIsMean(values: seq<nat>)
    ensures Fill(values).count == |values|
    ensures IsMean(Fill(values).average, |values|, Sum(values))
  {
    if values != [] {
      var front, v := values[..|values| - 1], values[|values| - 1];
      AverageIsMean(front);
      MeanStep(Fill(front), v, Sum(front));
    }
  }

  lemma MeanStep(h: Histogram, value: nat, sum: nat)
    requires IsMean(h.average, h.count, sum)
    ensures IsMean(AddValue(h, value).average, h.count + 1, sum + value)
  {
    RunningMean(h.average, h.count as real, value as real);
  }

  lemma RunningMean(average: real, n: real, v: real)
    requires n >= 0.0
    ensures (average * (n / (n + 1.0)) + v / (n + 1.0)) * (n + 1.0) == average * n + v
  {
    var k := n + 1.0;
    var p, q := n / k, v / k;
    assert p * k == n && q * k == v;
    assert (average * p + q) * k == average * (p * k) + q * k;
  }

  lemma {:induction false} MaximumAttained(values: seq<nat>)
    ensures forall v :: v in values ==> v <= Fill(values).maxSample
    ensures Fill(values).maxSample == 0 || Fill(values).maxSample in values
  {
    if values != [] {
      var front := values[..|values| - 1];
      MaximumAttained(front);
      assert values == front + [values[|values| - 1]];
    }
  }

  // ---------- tables of histograms ----------

  function AppendIf(values: seq<nat>, more: bool, value: nat): seq<nat> {
    if more then values + [value] else values
  }

  ghost predicate Holds<K>(histograms: map<K, Histogram>, key: K, values: seq<nat>) {
    if values == [] then key !in histograms else key in histograms && histograms[key] == Fill(values)
  }

  lemma AddToHolds<K>(histograms: map<K, Histogram>, key: K, k: K, values: seq<nat>, value: nat)
    requires Holds(histograms, k, values)
    ensures Holds(AddTo(histograms, key, value), k, AppendIf(values, key == k, value))
  {
    assert (values + [value])[..|values|] == values;
  }
}
