/**
 The total amount of money held in a map of balances, and how a single
 balance update changes it.
 */
module Totals {

  /** The sum of all balances in `m`. */
  ghost function Total(m: map<string, real>): real
    decreases |m|
  {
    if m == map[] then 0.0
    else
      var k :| k in m;
      m[k] + Total(m - {k})
  }

  /** The sum can be split at any key, not just the one `Total` happens to
      pick. */
  lemma {:induction false} TotalSplit(m: map<string, real>, k: string)
    requires k in m
    ensures Total(m) == m[k] + Total(m - {k})
    decreases |m|
  {
    var j :| j in m && Total(m) == m[j] + Total(m - {j});
    if j != k {
      assert m - {j} - {k} == m - {k} - {j};
      TotalSplit(m - {j}, k);
      TotalSplit(m - {k}, j);
    }
  }

  /** Setting the balance of a present key changes the sum by the
      difference. */
  lemma TotalUpdate(m: map<string, real>, k: string, v: real)
    requires k in m
    ensures Total(m[k := v]) == Total(m) - m[k] + v
  {
    TotalSplit(m, k);
    TotalSplit(m[k := v], k);
    assert m[k := v] - {k} == m - {k};
  }

  /** Adding a new key adds its balance to the sum. */
  lemma TotalInsert(m: map<string, real>, k: string, v: real)
    requires k !in m
    ensures Total(m[k := v]) == Total(m) + v
  {
    TotalSplit(m[k := v], k);
    assert m[k := v] - {k} == m;
  }
}
