/** Index searches over sequences. Go's `Find` over the allow-list, `path.Base`
    and the string splitting of the handler are all first/last-index searches. */
module Seqs {

  /** The least index at or after `start` that holds `v`, or -1 when none does. */
  function FirstIndexFrom<T(==)>(s: seq<T>, v: T, start: nat): (r: int)
    requires start <= |s|
    ensures r == -1 || start <= r < |s|
    ensures r != -1 ==> s[r] == v
    ensures forall j :: start <= j < |s| && (r == -1 || j < r) ==> s[j] != v
    decreases |s| - start
  {
    if start == |s| then -1
    else if s[start] == v then start
    else FirstIndexFrom(s, v, start + 1)
  }

  /** The least index that holds `v`, or -1 exactly when `v` does not occur. */
  function FirstIndex<T(==)>(s: seq<T>, v: T): (r: int)
    ensures -1 <= r < |s|
    ensures r != -1 ==> s[r] == v
    ensures forall j :: 0 <= j < |s| && (r == -1 || j < r) ==> s[j] != v
    ensures r == -1 <==> v !in s
  {
    FirstIndexFrom(s, v, 0)
  }

  /** The greatest index that holds `v`, or -1 exactly when `v` does not occur. */
  function LastIndex<T(==)>(s: seq<T>, v: T): (r: int)
    ensures -1 <= r < |s|
    ensures r != -1 ==> s[r] == v
    ensures forall j :: r < j < |s| ==> s[j] != v
    decreases |s|
  {
    if |s| == 0 then -1
    else if s[|s| - 1] == v then |s| - 1
    else LastIndex(s[..|s| - 1], v)
  }

  /** The last `v` of `a + [v] + b` is the one placed between them when `b`
      holds none. */
  lemma {:induction false} LastIndexAtSeparator<T>(a: seq<T>, v: T, b: seq<T>)
    requires v !in b
    ensures LastIndex(a + [v] + b, v) == |a|
  {
    var s := a + [v] + b;
    var r := LastIndex(s, v);
    assert s[|a|] == v;
    assert s[|a| + 1..] == b;
    assert forall j :: |a| < j < |s| ==> s[j] != v by {
      forall j | |a| < j < |s|
        ensures s[j] != v
      {
        assert s[j] == s[|a| + 1..][j - |a| - 1];
      }
    }
  }

  /** The middle part of a three-part concatenation is recovered by slicing. */
  lemma {:induction false} MiddleOfConcat<T>(a: seq<T>, b: seq<T>, c: seq<T>)
    ensures (a + b + c)[|a|..|a| + |b|] == b
  {
    var s := a + b + c;
    assert forall k :: 0 <= k < |b| ==> s[|a| + k] == b[k];
  }
}
