/** The two functions of Go's `strings` package that the server calls:
    `strings.Contains` and element 1 of `strings.Split`. */
module GoStrings {
  import opened Optional
  import opened Seqs

  /** `sub` sits in `s` as a contiguous block starting at index `i`. */
  ghost predicate OccursAt(sub: string, s: string, i: nat) {
    i + |sub| <= |s| && s[i..i + |sub|] == sub
  }

  /** `sub` occurs in `s` as a contiguous block. */
  ghost predicate Occurs(sub: string, s: string) {
    exists i: nat :: OccursAt(sub, s, i)
  }

  /** strings.Contains: a left-to-right search for `sub` in `s`. */
  function Contains(s: string, sub: string): (r: bool)
    ensures r <==> Occurs(sub, s)
    decreases |s|
  {
    if |s| < |sub| then false
    else if s[..|sub|] == sub then
      assert OccursAt(sub, s, 0);
      true
    else
      var r := Contains(s[1..], sub);
      assert r ==> Occurs(sub, s) by {
        if r {
          var i: nat :| OccursAt(sub, s[1..], i);
          assert s[i + 1..i + 1 + |sub|] == sub;
          assert OccursAt(sub, s, i + 1);
        }
      }
      assert Occurs(sub, s) ==> r by {
        if Occurs(sub, s) {
          var i: nat :| OccursAt(sub, s, i);
          assert i != 0;
          assert s[1..][i - 1..i - 1 + |sub|] == sub;
          assert OccursAt(sub, s[1..], i - 1);
        }
      }
      r
  }

  /** Element 1 of `strings.Split(s, [sep])`: the text between the first and the
      second `sep` (or the end of `s`). None where Go's index expression panics,
      which is exactly when `s` holds no `sep` and the split has one element. */
  function SecondField(s: string, sep: char): (r: Option<string>)
    ensures r.None? <==> sep !in s
    ensures r.Some? ==>
      var i := FirstIndex(s, sep);
      && i + 1 + |r.value| <= |s|
      && s[i + 1..i + 1 + |r.value|] == r.value
      && sep !in r.value
      && (i + 1 + |r.value| == |s| || s[i + 1 + |r.value|] == sep)
  {
    var i := FirstIndex(s, sep);
    if i < 0 then None
    else
      var rest := s[i + 1..];
      var j := FirstIndex(rest, sep);
      Some(if j < 0 then rest else rest[..j])
  }
}
