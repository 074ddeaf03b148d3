/** Scans over a table keyed by primary key, in key order: the two query shapes
    the repositories use, `Find` (every row that matches) and `First` (the
    matching row with the smallest key). */
module Tables {
  import opened Results

  /** Keys in [lo, hi) of the rows `keep` accepts, ascending. */
  function SelectIds<T>(m: map<nat, T>, keep: T -> bool, lo: nat, hi: nat): (r: seq<nat>)
    decreases hi - lo
    ensures forall i, j :: 0 <= i < j < |r| ==> r[i] < r[j]
    ensures forall k :: k in r <==> lo <= k < hi && k in m && keep(m[k])
  {
    if lo >= hi then []
    else if lo in m && keep(m[lo]) then
      var rest := SelectIds(m, keep, lo + 1, hi);
      assert forall j :: 0 <= j < |rest| ==> rest[j] in rest;
      [lo] + rest
    else SelectIds(m, keep, lo + 1, hi)
  }

  /** The smallest key in [lo, hi) whose row `keep` accepts. */
  function FirstId<T>(m: map<nat, T>, keep: T -> bool, lo: nat, hi: nat): (r: Option<nat>)
    decreases hi - lo
    ensures r.Some? ==> lo <= r.value < hi && r.value in m && keep(m[r.value])
    ensures r.Some? ==> forall k :: lo <= k < r.value && k in m ==> !keep(m[k])
    ensures r.None? ==> forall k :: lo <= k < hi && k in m ==> !keep(m[k])
  {
    if lo >= hi then None
    else if lo in m && keep(m[lo]) then Some(lo)
    else FirstId(m, keep, lo + 1, hi)
  }

  /** The rows stored under `ids`, in that order. */
  function Rows<T>(m: map<nat, T>, ids: seq<nat>): (r: seq<T>)
    requires forall k :: k in ids ==> k in m
    ensures |r| == |ids|
    ensures forall i :: 0 <= i < |ids| ==> r[i] == m[ids[i]]
    ensures forall k :: k in ids ==> m[k] in r
  {
    var r := seq(|ids|, i requires 0 <= i < |ids| => m[ids[i]]);
    assert forall i :: 0 <= i < |ids| ==> r[i] in r;
    r
  }
}
