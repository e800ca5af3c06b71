/** The POSIX `os.path` functions the program calls: `join`, `basename`,
    `splitext` and `normpath`, on '/'-separated strings. */
module Paths {
  import opened Pystr

  /** `os.path.join(a, b)`: an absolute `b` replaces `a`; otherwise a '/' is put
      between them unless `a` is empty or already ends with one. */
  function Join(a: string, b: string): string {
    if StartsWith(b, "/") then b
    else if a == [] || EndsWith(a, "/") then a + b
    else a + "/" + b
  }

  /** `os.path.basename(p)`: what follows the last '/'. */
  function Basename(p: string): string {
    p[LastIndexOf(p, '/') + 1..]
  }

  /** The base name is the longest suffix of `p` without a '/'. */
  lemma BasenameSpec(p: string)
    ensures var r := Basename(p);
      '/' !in r && EndsWith(p, r) && (|r| < |p| ==> p[|p| - |r| - 1] == '/')
  {
  }

  /** A name that `join` appends as one new path component. */
  predicate SimpleName(c: string) {
    c != [] && '/' !in c
  }

  /** A name that `normpath` keeps as one component (not empty, '.' or '..'). */
  predicate PlainComponent(c: string) {
    SimpleName(c) && c != "." && c != ".."
  }

  /** The base name of a file joined onto a folder is the file's own name. */
  lemma BasenameJoin(root: string, name: string)
    requires '/' !in name
    ensures Basename(Join(root, name)) == name
  {
    var p := Join(root, name);
    if !(root == [] || EndsWith(root, "/")) {
      LastIndexOfAppend(root, '/', name);
    } else if root != [] {
      var u := root[..|root| - 1];
      assert root == u + ['/'];
      assert !StartsWith(name, "/") by { if name != [] { assert name[0] != '/'; } }
      assert p == u + ['/'] + name;
      LastIndexOfAppend(u, '/', name);
    } else {
      assert p == name;
    }
  }

  // ------------------------------------------------------------- splitext

  /** `os.path.splitext(p)`: splits off the text from the last '.' of the final
      component, unless that component has only dots before it. */
  function SplitExt(p: string): (string, string) {
    var sepIndex := LastIndexOf(p, '/');
    var dotIndex := LastIndexOf(p, '.');
    if dotIndex > sepIndex && exists k :: sepIndex < k < dotIndex && p[k] != '.' then
      (p[..dotIndex], p[dotIndex..])
    else
      (p, "")
  }

  // ------------------------------------------------------------- normpath

  /** The number of '/' characters `p` starts with. */
  function LeadingSlashes(p: string): nat {
    if p != [] && p[0] == '/' then 1 + LeadingSlashes(p[1..]) else 0
  }

  /** `normpath` keeps exactly two leading slashes and folds one, or three and
      more, into a single one. */
  function Root(p: string): string {
    var n := LeadingSlashes(p);
    if n == 2 then "//" else if n > 0 then "/" else ""
  }

  /** One component of `normpath`'s scan: empty and '.' components vanish, '..'
      drops the previous component unless there is none to drop (then a
      relative path keeps it and an absolute one discards it). */
  function Step(stack: seq<string>, comp: string, absolute: bool): seq<string> {
    if comp == "" || comp == "." then stack
    else if comp != ".." || (!absolute && stack == []) || (stack != [] && stack[|stack| - 1] == "..") then
      stack + [comp]
    else if stack != [] then stack[..|stack| - 1]
    else stack
  }

  /** `normpath`'s scan over the components, from the left. */
  function Resolve(comps: seq<string>, absolute: bool): seq<string> {
    if comps == [] then []
    else Step(Resolve(comps[..|comps| - 1], absolute), comps[|comps| - 1], absolute)
  }

  /** The components `normpath` keeps for `p`. */
  function Components(p: string): seq<string> {
    Resolve(Split(p, '/'), Root(p) != "")
  }

  /** `os.path.normpath(p)` */
  function NormPath(p: string): (r: string)
    ensures r != []
  {
    if p == [] then "."
    else
      var r := Root(p) + JoinWith(Components(p), '/');
      if r == [] then "." else r
  }

  /** What `normpath` puts in front of one more plain component joined onto `t`. */
  function Base(t: string): string {
    Prefixed(Root(t), Components(t))
  }

  /** A root followed by the components, each closed by a '/'. */
  function Prefixed(root: string, cs: seq<string>): string {
    root + (if cs == [] then "" else JoinWith(cs, '/') + "/")
  }

  lemma PrefixedSnoc(root: string, cs: seq<string>, c: string)
    ensures Prefixed(root, cs + [c]) == Prefixed(root, cs) + c + "/"
  {
    JoinWithAppend(cs, c, '/');
  }

  lemma {:induction false} LeadingSlashesAppend(a: string, b: string)
    requires b == [] || b[0] != '/' || exists k :: 0 <= k < |a| && a[k] != '/'
    ensures LeadingSlashes(a + b) == LeadingSlashes(a)
  {
    if a == [] {
      assert a + b == b;
    } else if a[0] == '/' {
      assert (a + b)[1..] == a[1..] + b;
      if !(b == [] || b[0] != '/') {
        var k :| 0 <= k < |a| && a[k] != '/';
        assert a[1..][k - 1] == a[k];
      }
      LeadingSlashesAppend(a[1..], b);
    }
  }

  lemma JoinWithAppend(xs: seq<string>, c: string, sep: char)
    ensures JoinWith(xs + [c], sep) == if xs == [] then c else JoinWith(xs, sep) + [sep] + c
  {
    assert (xs + [c])[..|xs|] == xs;
  }

  lemma ResolveSnoc(cs: seq<string>, c: string, absolute: bool)
    ensures Resolve(cs + [c], absolute) == Step(Resolve(cs, absolute), c, absolute)
  {
    assert (cs + [c])[..|cs|] == cs;
  }

  /** How `join` attaches a simple name to a non-empty folder. */
  lemma JoinShape(t: string, c: string)
    requires t != [] && SimpleName(c)
    ensures EndsWith(t, "/") ==> Join(t, c) == t + c
    ensures !EndsWith(t, "/") ==> Join(t, c) == t + ['/'] + c
  {
    assert !StartsWith(c, "/") by { assert c[0] != '/'; }
  }

  /** Joining one plain component onto a non-empty folder keeps the folder's
      root and appends exactly that component to what `normpath` keeps. */
  lemma JoinComponent(t: string, c: string)
    requires t != [] && PlainComponent(c)
    ensures Root(Join(t, c)) == Root(t)
    ensures Components(Join(t, c)) == Components(t) + [c]
  {
    JoinShape(t, c);
    if EndsWith(t, "/") {
      JoinComponentAfterSlash(t, c);
    } else {
      JoinComponentNoSlash(t, c);
    }
  }

  lemma JoinComponentAfterSlash(t: string, c: string)
    requires t != [] && PlainComponent(c) && EndsWith(t, "/")
    ensures Root(t + c) == Root(t)
    ensures Components(t + c) == Components(t) + [c]
  {
    var u := t[..|t| - 1];
    assert t == u + ['/'] + "";
    assert t + c == u + ['/'] + c;
    SplitAppend(u, '/', c);
    SplitAppend(u, '/', "");
    assert c[0] != '/';
    LeadingSlashesAppend(t, c);
    var abs := Root(t) != "";
    var su := Split(u, '/');
    ResolveSnoc(su, "", abs);
    ResolveSnoc(su, c, abs);
  }

  lemma JoinComponentNoSlash(t: string, c: string)
    requires t != [] && PlainComponent(c) && !EndsWith(t, "/")
    ensures Root(t + ['/'] + c) == Root(t)
    ensures Components(t + ['/'] + c) == Components(t) + [c]
  {
    SplitAppend(t, '/', c);
    assert t[|t| - 1] != '/' by { assert t[|t| - 1..] == [t[|t| - 1]]; }
    LeadingSlashesAppend(t, ['/'] + c);
    assert t + ['/'] + c == t + (['/'] + c);
    ResolveSnoc(Split(t, '/'), c, Root(t) != "");
  }

  /** `normpath` of a plain component joined onto `t`. */
  lemma NormPathJoin(t: string, c: string)
    requires t != [] && PlainComponent(c)
    ensures NormPath(Join(t, c)) == Base(t) + c
  {
    var p := Join(t, c);
    JoinComponent(t, c);
    JoinShape(t, c);
    PrefixedAppend(Root(t), Components(t), c);
    NormPathOfNonEmpty(p);
  }

  /** A root, components and one more non-empty component, joined with '/'. */
  lemma PrefixedAppend(root: string, cs: seq<string>, c: string)
    requires c != []
    ensures Prefixed(root, cs) + c == root + JoinWith(cs + [c], '/')
    ensures Prefixed(root, cs) + c != []
  {
    JoinWithAppend(cs, c, '/');
  }

  /** `normpath` of a non-empty path whose rebuilt form is not empty. */
  lemma NormPathOfNonEmpty(p: string)
    requires p != [] && Root(p) + JoinWith(Components(p), '/') != []
    ensures NormPath(p) == Root(p) + JoinWith(Components(p), '/')
  {
  }

  /** Joining a plain component extends `Base` by that component and a '/'. */
  lemma BaseJoin(t: string, c: string)
    requires t != [] && PlainComponent(c)
    ensures Base(Join(t, c)) == Base(t) + c + "/"
  {
    JoinComponent(t, c);
    PrefixedSnoc(Root(t), Components(t), c);
  }

  /** `normpath` of a file name joined onto a folder joined onto `t`. */
  lemma NormPathJoin2(t: string, c: string, name: string)
    requires t != [] && PlainComponent(c) && PlainComponent(name)
    ensures NormPath(Join(Join(t, c), name)) == Base(t) + c + "/" + name
  {
    var f := Join(t, c);
    JoinShape(t, c);
    assert f != [];
    NormPathJoin(f, name);
    BaseJoin(t, c);
  }
}
