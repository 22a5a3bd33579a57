/** The sum of a map's values. */
module Sums {
  ghost function Sum<K>(counts: map<K, nat>): (total: nat)
  {
    if counts == map[] then 0
    else
      var node :| node in counts;
      counts[node] + Sum(counts - {node})
  }

  /** The sum does not depend on the order in which the values are visited. */
  lemma {:induction false} SumTakesOut<K>(counts: map<K, nat>, node: K)
    requires node in counts
    ensures Sum(counts) == counts[node] + Sum(counts - {node})
    decreases |counts|
  {
    var picked :| picked in counts && Sum(counts) == counts[picked] + Sum(counts - {picked});
    if picked != node {
      SumTakesOut(counts - {picked}, node);
      SumTakesOut(counts - {node}, picked);
      assert counts - {picked} - {node} == counts - {node} - {picked};
    }
  }
}
