/** Boolean-mask selection, the one way the dashboard's pandas pipeline keeps
    rows or columns (`dropna(how='all')` and `pct[valid_days]` both select the
    positions where a mask is true and keep their order). */
module Masks {

  /** The positions at which `mask` is true, in increasing order. */
  function TrueIndices(mask: seq<bool>): (r: seq<nat>)
    ensures forall k :: 0 <= k < |r| ==> r[k] < |mask| && mask[r[k]]
    ensures forall i :: 0 <= i < |mask| && mask[i] ==> i in r
    ensures forall k, m :: 0 <= k < m < |r| ==> r[k] < r[m]
    ensures r == [] <==> forall i :: 0 <= i < |mask| ==> !mask[i]
  {
    if mask == [] then []
    else
      var front := TrueIndices(mask[..|mask| - 1]);
      if mask[|mask| - 1] then front + [|mask| - 1] else front
  }

  /** The entries of `s` at the positions `idx`, in the order of `idx`. */
  function Select<T>(s: seq<T>, idx: seq<nat>): (r: seq<T>)
    requires forall k :: 0 <= k < |idx| ==> idx[k] < |s|
    ensures |r| == |idx|
    ensures forall k :: 0 <= k < |idx| ==> r[k] == s[idx[k]]
  {
    seq(|idx|, k requires 0 <= k < |idx| => s[idx[k]])
  }
}
