/** The extension gate: Go's `Find` over the configured allow-list. */
module AllowList {
  import opened Seqs

  /** Find: the first index whose element equals `val` exactly (case-sensitive
      string equality) paired with true, or (-1, false) when there is none. */
  function Find(slice: seq<string>, val: string): (r: (int, bool))
    ensures r.1 <==> val in slice
    ensures r.1 ==> 0 <= r.0 < |slice| && slice[r.0] == val
    ensures r.1 ==> forall j :: 0 <= j < r.0 ==> slice[j] != val
    ensures !r.1 ==> r.0 == -1
  {
    var i := FirstIndex(slice, val);
    if i == -1 then (-1, false) else (i, true)
  }
}
