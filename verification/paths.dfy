/** The parts of Python's `posixpath` that the output filename search relies on: `dirname`,
    `basename`, `join` of two parts, and `splitext`. */
module Paths {

  /** `p.rfind('/') + 1`: the position just after the last slash, 0 when there is none. */
  function AfterLastSlash(p: string): (i: nat)
    ensures i <= |p|
    ensures i > 0 ==> p[i - 1] == '/'
    ensures forall k :: i <= k < |p| ==> p[k] != '/'
  {
    if |p| == 0 then 0
    else if p[|p| - 1] == '/' then |p|
    else AfterLastSlash(p[..|p| - 1])
  }

  /** `basename`: what follows the last slash. */
  function Basename(p: string): (b: string)
    ensures '/' !in b
    ensures |b| <= |p| && p[|p| - |b|..] == b
    ensures '/' !in p ==> b == p
  {
    var i := AfterLastSlash(p);
    assert forall k :: 0 <= k < |p| - i ==> p[i..][k] == p[i + k];
    if '/' !in p then
      assert i == 0;
      p
    else p[i..]
  }

  /** Trailing slashes removed: `s.rstrip('/')`. */
  function RStripSlashes(s: string): (r: string)
    ensures |r| <= |s| && s[..|r|] == r
    ensures |r| > 0 ==> r[|r| - 1] != '/'
    ensures forall k :: |r| <= k < |s| ==> s[k] == '/'
  {
    if |s| == 0 || s[|s| - 1] != '/' then s
    else RStripSlashes(s[..|s| - 1])
  }

  /** `dirname`: everything up to the last slash, with trailing slashes removed unless it is
      made of slashes only. */
  function Dirname(p: string): (d: string)
    ensures |d| <= |p| && p[..|d|] == d
    ensures '/' !in p ==> d == ""
  {
    var head := p[..AfterLastSlash(p)];
    if head != "" && exists k :: 0 <= k < |head| && head[k] != '/' then RStripSlashes(head) else head
  }

  /** `join(a, b)`: an absolute b replaces a; otherwise b is appended, with a slash between
      unless a is empty or already ends with one. */
  function Join(a: string, b: string): (r: string)
    ensures |b| > 0 && b[0] == '/' ==> r == b
    ensures !(|b| > 0 && b[0] == '/') ==> |r| >= |b| && r[|r| - |b|..] == b
  {
    if |b| > 0 && b[0] == '/' then b
    else if a == "" || a[|a| - 1] == '/' then a + b
    else a + "/" + b
  }

  /** Joining a name without slashes to a directory gives a path whose basename is that
      name. */
  lemma BasenameOfJoin(dir: string, name: string)
    requires '/' !in name && name != ""
    ensures Basename(Join(dir, name)) == name
  {
    var p := Join(dir, name);
    assert name[0] in name;
    var prefix := p[..|p| - |name|];
    assert p == prefix + name;
    var i := AfterLastSlash(p);
    assert i <= |prefix|;
    if |prefix| > 0 {
      assert p[|prefix| - 1] == '/';
      assert i >= |prefix|;
    }
    assert p[i..] == name;
  }

  /** A path made of a directory, one slash and a name splits back into the two, and joining
      them rebuilds it. */
  lemma SplitJoinRoundTrip(d: string, n: string)
    requires d != "" && d[|d| - 1] != '/' && n != "" && '/' !in n
    ensures Dirname(d + "/" + n) == d && Basename(d + "/" + n) == n
    ensures Join(d, n) == d + "/" + n
  {
    var p := d + "/" + n;
    assert n[0] in n;
    assert p[|d|] == '/';
    var i := AfterLastSlash(p);
    assert i == |d| + 1;
    var head := p[..i];
    assert head == d + "/";
    assert head[|d| - 1] != '/';
    assert RStripSlashes(head) == d by {
      assert head[..|head| - 1] == d;
    }
    assert p[i..] == n;
  }

  /** Joining to the same directory keeps different names apart. */
  lemma JoinInjective(dir: string, x: string, y: string)
    requires x != "" && y != "" && x[0] != '/' && y[0] != '/'
    requires Join(dir, x) == Join(dir, y)
    ensures x == y
  {
    if dir == "" || dir[|dir| - 1] == '/' {
      assert dir + x == dir + y;
      assert x == (dir + x)[|dir|..] && y == (dir + y)[|dir|..];
    } else {
      assert dir + "/" + x == dir + "/" + y;
      assert x == (dir + "/" + x)[|dir| + 1..] && y == (dir + "/" + y)[|dir| + 1..];
    }
  }

  /** `p.rfind('.')`, -1 when there is no dot. */
  function LastDot(p: string): (i: int)
    ensures -1 <= i < |p|
    ensures i >= 0 ==> p[i] == '.'
    ensures forall k :: i < k < |p| ==> p[k] != '.'
  {
    if |p| == 0 then -1
    else if p[|p| - 1] == '.' then |p| - 1
    else LastDot(p[..|p| - 1])
  }

  /** `splitext`: the extension runs from the last dot of the last path component, unless
      only dots precede that dot in the component (a leading-dot name has no extension). */
  function Splitext(p: string): (r: (string, string))
    ensures r.0 + r.1 == p
    ensures r.1 == "" || (r.1[0] == '.' && '/' !in r.1 && forall k :: 1 <= k < |r.1| ==> r.1[k] != '.')
  {
    var start := AfterLastSlash(p);
    var dot := LastDot(p);
    if dot >= start && exists k :: start <= k < dot && p[k] != '.' then
      assert p[..dot] + p[dot..] == p;
      assert forall k :: 0 <= k < |p[dot..]| ==> p[dot..][k] == p[dot + k];
      (p[..dot], p[dot..])
    else (p, "")
  }

  /** A name with something other than dots in it splits off an extension added to it. */
  lemma SplitextAdded(name: string, ext: string)
    requires '/' !in name && exists k :: 0 <= k < |name| && name[k] != '.'
    requires |ext| > 0 && ext[0] == '.' && forall k :: 0 <= k < |ext| ==> ext[k] != '/'
    requires forall k :: 1 <= k < |ext| ==> ext[k] != '.'
    ensures Splitext(name + ext) == (name, ext)
  {
    var p := name + ext;
    var start := AfterLastSlash(p);
    assert start == 0;
    var dot := LastDot(p);
    assert p[|name|] == '.';
    assert dot == |name|;
    var k :| 0 <= k < |name| && name[k] != '.';
    assert p[k] == name[k];
    assert p[..dot] == name;
  }
}
