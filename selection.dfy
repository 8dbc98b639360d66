/** Order-preserving selection of positions: the shape shared by the loops
    that append only the items passing a test (anchors with an `href`,
    detail pages that loaded). */
module Selection {

  /** The positions below `n` that satisfy `keep`, in increasing order. */
  function Selected(n: nat, keep: nat -> bool): (r: seq<nat>)
    ensures |r| <= n
    ensures forall k :: 0 <= k < |r| ==> r[k] < n && keep(r[k])
    ensures forall k, l :: 0 <= k < l < |r| ==> r[k] < r[l]
    ensures forall i :: 0 <= i < n ==> (keep(i) <==> i in r)
  {
    if n == 0 then [] else Selected(n - 1, keep) + (if keep(n - 1) then [n - 1] else [])
  }
}
