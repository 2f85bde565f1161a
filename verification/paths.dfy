/**
  The two POSIX path operations the prediction job uses to place the stored
  new-data file, as Python's `posixpath` defines them.
*/
module Paths {

  predicate IsPrefix(a: string, b: string) {
    |a| <= |b| && b[..|a|] == a
  }

  predicate NoSlash(s: string) {
    forall k :: 0 <= k < |s| ==> s[k] != '/'
  }

  predicate AllSlashes(s: string) {
    forall k :: 0 <= k < |s| ==> s[k] == '/'
  }

  /** The index just past the last '/' of `p` (`p.rfind('/') + 1`), 0 when there is none. */
  function LastSep(p: string): (i: nat)
    ensures i <= |p|
    ensures i > 0 ==> p[i - 1] == '/'
    ensures NoSlash(p[i..])
    decreases |p|
  {
    if p == [] then 0
    else if p[|p| - 1] == '/' then |p|
    else
      var i := LastSep(p[..|p| - 1]);
      assert p[i..] == p[..|p| - 1][i..] + [p[|p| - 1]];
      i
  }

  /** `s.rstrip('/')`. */
  function RStripSlashes(s: string): (r: string)
    ensures IsPrefix(r, s)
    ensures r == [] || r[|r| - 1] != '/'
    ensures AllSlashes(s[|r|..])
    decreases |s|
  {
    if s != [] && s[|s| - 1] == '/' then
      var r := RStripSlashes(s[..|s| - 1]);
      assert s[|r|..] == s[..|s| - 1][|r|..] + ['/'];
      r
    else s
  }

  lemma PrefixTransitive(a: string, b: string, c: string)
    requires IsPrefix(a, b) && IsPrefix(b, c)
    ensures IsPrefix(a, c)
  {
    assert c[..|a|] == c[..|b|][..|a|];
  }

  /**
    `posixpath.dirname`: everything before the last '/', without trailing
    slashes unless it is all slashes.  The result is empty exactly when the
    path has no separator; a head made only of separators is kept whole;
    otherwise the result ends in a non-separator and only separators lie
    between it and the last one.
  */
  function Dirname(p: string): (r: string)
    ensures IsPrefix(r, p)
    ensures r == "" <==> NoSlash(p)
    ensures AllSlashes(p[..LastSep(p)]) ==> r == p[..LastSep(p)]
    ensures !AllSlashes(p[..LastSep(p)]) ==>
      && |r| < LastSep(p)
      && r[|r| - 1] != '/'
      && AllSlashes(p[|r|..LastSep(p)])
  {
    var head := p[..LastSep(p)];
    assert LastSep(p) == 0 ==> p[LastSep(p)..] == p;
    if head != "" && !AllSlashes(head) then
      var r := RStripSlashes(head);
      assert head[|r|..] == p[|r|..LastSep(p)];
      r
    else head
  }

  /** `posixpath.join` of two parts: an absolute second part wins; a separator is added only when needed. */
  function Join(a: string, b: string): (r: string)
    ensures |b| > 0 && b[0] == '/' ==> r == b
    ensures !(|b| > 0 && b[0] == '/') ==> IsPrefix(a, r)
  {
    if |b| > 0 && b[0] == '/' then b
    else if a == "" || a[|a| - 1] == '/' then a + b
    else a + "/" + b
  }

  /** `dirname` undoes `join`: a directory without a trailing slash, joined with a plain name, comes back. */
  lemma DirnameOfJoin(d: string, name: string)
    requires d != "" && d[|d| - 1] != '/' && NoSlash(name)
    ensures Dirname(Join(d, name)) == d
  {
    var p := Join(d, name);
    assert (|name| > 0 ==> name[0] != '/');
    assert p == d + "/" + name;
    assert p[|d|] == '/';
    assert p[|d| + 1..] == name;
    var i := LastSep(p);
    assert i == |d| + 1;
    var head := p[..i];
    assert head == d + "/";
    assert head[|d| - 1] != '/';
    assert RStripSlashes(head) == RStripSlashes(d);
  }

  /** Joining a relative name adds exactly one separator, unless the first part is empty or already ends with one. */
  lemma JoinPlain(a: string, b: string)
    requires |b| > 0 && b[0] != '/'
    ensures Join(a, b) == (if a == "" || a[|a| - 1] == '/' then a else a + "/") + b
  {
  }
}
