/** The three functions of Go's `path` package the handler calls on the request
    path: `Ext`, `Base` and `Dir`, over slash-separated strings. */
module GoPath {
  import opened Seqs

  /** No '.' and no '/' anywhere in `s`. */
  ghost predicate NoDotOrSlash(s: string) {
    forall k :: 0 <= k < |s| ==> s[k] != '.' && s[k] != '/'
  }

  /** `e` is a suffix of `p` that starts with '.' and meets no further '.' and no
      '/' before the end: the extension of the last element of `p`. */
  ghost predicate IsExtensionOf(e: string, p: string) {
    && 0 < |e| <= |p|
    && e[0] == '.'
    && p[|p| - |e|..] == e
    && NoDotOrSlash(e[1..])
  }

  /** The last element of `p` carries no extension: no suffix of `p` is one. */
  ghost predicate NoExtension(p: string) {
    forall k :: 0 <= k < |p| ==> !IsExtensionOf(p[k..], p)
  }

  /** path.Ext: the scan from the end of `p` towards its start, stopping at the
      first '/', and returning everything from the first '.' it meets. `i` is
      the scan position; everything after it has already been passed over. */
  function ExtScan(p: string, i: int): (r: string)
    requires -1 <= i < |p|
    requires NoDotOrSlash(p[i + 1..])
    ensures r != "" ==> IsExtensionOf(r, p)
    ensures r == "" ==> NoExtension(p)
    decreases i + 1
  {
    if i < 0 then
      NoDotsLeftOfScan(p, i);
      ""
    else if p[i] == '/' then
      NoDotsLeftOfScan(p, i);
      ""
    else if p[i] == '.' then
      p[i..]
    else
      assert p[i..] == [p[i]] + p[i + 1..];
      ExtScan(p, i - 1)
  }

  /** Once the scan reaches the start of `p` or a '/', no suffix of `p` is an
      extension: suffixes starting after `i` hold no '.', and those starting at
      or before it contain the '/' at `i` (or do not start with '.'). */
  lemma {:induction false} NoDotsLeftOfScan(p: string, i: int)
    requires -1 <= i < |p|
    requires i < 0 || p[i] == '/'
    requires NoDotOrSlash(p[i + 1..])
    ensures NoExtension(p)
  {
    forall k | 0 <= k < |p|
      ensures !IsExtensionOf(p[k..], p)
    {
      if k > i {
        assert p[k] == p[i + 1..][k - i - 1];
      } else if k < i {
        assert p[k..][1..][i - k - 1] == '/';
      }
    }
  }

  /** path.Ext: the extension of the last element of `p`, with its leading '.',
      or "" when that element has none. */
  function Ext(p: string): (r: string)
    ensures r != "" ==> IsExtensionOf(r, p)
    ensures r == "" <==> NoExtension(p)
  {
    ExtScan(p, |p| - 1)
  }

  /** At most one suffix of a path is its extension, so `Ext` picks the only
      candidate there is. */
  lemma {:induction false} ExtensionIsUnique(p: string, e1: string, e2: string)
    requires IsExtensionOf(e1, p) && IsExtensionOf(e2, p)
    ensures e1 == e2
  {
    DotOnlyAtExtensionStart(p, e1);
    DotOnlyAtExtensionStart(p, e2);
    assert p[|p| - |e1|] == e1[0];
    assert p[|p| - |e2|] == e2[0];
  }

  /** Inside an extension of `p`, the only '.' of `p` is the leading one. */
  lemma {:induction false} DotOnlyAtExtensionStart(p: string, e: string)
    requires IsExtensionOf(e, p)
    ensures forall j :: |p| - |e| < j < |p| ==> p[j] != '.'
  {
    forall j | |p| - |e| < j < |p|
      ensures p[j] != '.'
    {
      assert p[j] == e[1..][j - (|p| - |e|) - 1];
    }
  }

  /** `s` with every trailing '/' removed. */
  function TrimTrailingSlashes(s: string): (r: string)
    ensures |r| <= |s| && s[..|r|] == r
    ensures r == "" || r[|r| - 1] != '/'
    ensures forall k :: |r| <= k < |s| ==> s[k] == '/'
    decreases |s|
  {
    if |s| > 0 && s[|s| - 1] == '/' then TrimTrailingSlashes(s[..|s| - 1]) else s
  }

  /** path.Base: the last element of `p` after trailing slashes are dropped;
      "." for the empty path and "/" for a path made only of slashes. */
  function Base(p: string): (r: string)
    ensures r != ""
    ensures r == "/" || '/' !in r
    ensures p != "" && p[|p| - 1] != '/' ==>
      && |r| <= |p| && p[|p| - |r|..] == r
      && (|r| == |p| || p[|p| - |r| - 1] == '/')
  {
    if p == "" then "."
    else
      var t := TrimTrailingSlashes(p);
      if t == "" then "/"
      else t[LastIndex(t, '/') + 1..]
  }

  /** The path element at the head of `rest`: its text up to the first '/'. */
  function LeadingElement(rest: string): (e: string)
    ensures |e| <= |rest| && rest[..|e|] == e
    ensures '/' !in e
    ensures |e| == |rest| || rest[|e|] == '/'
  {
    var k := FirstIndex(rest, '/');
    if k < 0 then rest else rest[..k]
  }

  /** If `p` has a '/' at `i`, the element after it is neither empty nor "."
      nor "..". */
  ghost predicate ProperElementAfter(p: string, i: nat)
    requires i < |p|
  {
    p[i] == '/' ==> LeadingElement(p[i + 1..]) !in {"", ".", ".."}
  }

  /** A clean absolute path, the shape path.Clean produces for a rooted path
      other than "/": it starts with '/', and every '/' is followed by an
      element that is neither empty (no "//", no trailing '/') nor "." nor "..". */
  ghost predicate IsClean(p: string) {
    && |p| > 0
    && p[0] == '/'
    && forall i: nat {:trigger ProperElementAfter(p, i)} :: i < |p| ==> ProperElementAfter(p, i)
  }

  /** The textual consequences of cleanliness the rest of the model relies on. */
  lemma {:induction false} CleanShape(p: string)
    requires IsClean(p)
    ensures |p| >= 2
    ensures p[|p| - 1] != '/'
    ensures forall i :: 0 <= i < |p| - 1 && p[i] == '/' ==> p[i + 1] != '/'
  {
    assert ProperElementAfter(p, |p| - 1);
    assert LeadingElement(p[|p| - 1 + 1..]) == "";
    forall i | 0 <= i < |p| - 1 && p[i] == '/'
      ensures p[i + 1] != '/'
    {
      assert ProperElementAfter(p, i);
      var e := LeadingElement(p[i + 1..]);
      assert e != "";
      assert e[0] == p[i + 1];
    }
  }

  /** On a clean path, Base is the text after the final '/'. */
  lemma {:induction false} BaseOfClean(p: string)
    requires IsClean(p)
    ensures Base(p) == p[LastIndex(p, '/') + 1..]
  {
    CleanShape(p);
    assert TrimTrailingSlashes(p) == p;
  }

  /** path.Dir on a clean path: everything before the final '/', or "/" when
      that slash is the leading one. (Go cleans `p[..k+1]`; for a clean `p`
      that only drops the trailing slash.) */
  function Dir(p: string): (r: string)
    requires IsClean(p)
    ensures r != ""
    ensures r[0] == '/'
    ensures r == "/" || r[|r| - 1] != '/'
    ensures (if r == "/" then "" else r) + "/" + Base(p) == p
  {
    CleanShape(p);
    BaseOfClean(p);
    var k := LastIndex(p, '/');
    if k == 0 then
      assert "/" + p[1..] == p;
      "/"
    else
      assert p[k - 1] != '/';
      assert p[..k] + "/" + p[k + 1..] == p;
      p[..k]
  }

  /** A name that can follow a '/' in a clean path. */
  ghost predicate IsProperName(name: string) {
    name !in {"", ".", ".."} && '/' !in name
  }

  /** The element after a '/' does not depend on what follows the next '/'. */
  lemma {:induction false} LeadingElementBeforeSlash(a: string, x: string)
    ensures LeadingElement(a + ['/'] + x) == LeadingElement(a)
  {
    var s := a + ['/'] + x;
    assert forall k :: 0 <= k < |a| ==> s[k] == a[k];
    assert s[|a|] == '/';
    var k := FirstIndex(s, '/');
    var ka := FirstIndex(a, '/');
    if ka == -1 {
      assert k == |a|;
      assert s[..k] == a;
    } else {
      assert k == ka;
      assert s[..k] == a[..ka];
    }
  }

  /** Appending "/" and a proper name to a clean directory (or to the root)
      gives a clean path whose Dir is that directory and whose Base is that
      name: Dir and Base split exactly what was joined. */
  lemma {:induction false} SplitOfJoin(dir: string, name: string)
    requires dir == "/" || IsClean(dir)
    requires IsProperName(name)
    ensures var p := (if dir == "/" then "" else dir) + "/" + name;
      IsClean(p) && Dir(p) == dir && Base(p) == name
  {
    var front := if dir == "/" then "" else dir;
    var p := front + "/" + name;
    assert p == front + ['/'] + name;
    if dir != "/" {
      CleanShape(dir);
    }
    forall i: nat | i < |p|
      ensures ProperElementAfter(p, i)
    {
      if i < |front| {
        assert p[i] == dir[i];
        assert p[i + 1..] == dir[i + 1..] + ['/'] + name;
        LeadingElementBeforeSlash(dir[i + 1..], name);
        assert ProperElementAfter(dir, i);
      } else if i == |front| {
        assert p[i + 1..] == name;
        assert LeadingElement(name) == name;
      } else {
        assert p[i] == name[i - |front| - 1];
      }
    }
    assert IsClean(p);
    LastIndexAtSeparator(front, '/', name);
    BaseOfClean(p);
    assert p[|front| + 1..] == name;
  }
}
