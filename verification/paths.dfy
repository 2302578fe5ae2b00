/** The parts of Python's posixpath the scraper uses: join, the tail of split, and the extension
    of splitext. */
module Paths {

  /** posixpath.join(a, b) for two components: an absolute b replaces a, otherwise a separator
      is put between them unless a is empty or already ends in one. */
  function Join(a: string, b: string): (r: string)
    ensures |b| > 0 && b[0] == '/' ==> r == b
    ensures a == [] ==> r == b
  {
    if |b| > 0 && b[0] == '/' then b
    else if a == [] || a[|a| - 1] == '/' then a + b
    else a + "/" + b
  }

  /** Joining puts b at the end, and keeps a at the front unless b is absolute. */
  lemma JoinEnds(a: string, b: string)
    ensures var r := Join(a, b); |r| >= |b| && r[|r| - |b|..] == b
    ensures var r := Join(a, b); (|b| == 0 || b[0] != '/') ==> |r| >= |a| && r[..|a|] == a
  {
  }

  /** The tail of os.path.split(p): what follows the last '/', or all of p when it has none. */
  function BaseName(p: string): (r: string)
    ensures |r| <= |p|
  {
    if p == [] || p[|p| - 1] == '/' then [] else BaseName(p[..|p| - 1]) + [p[|p| - 1]]
  }

  /** The tail has no '/', it is a suffix of p, and unless it is all of p a '/' comes right
      before it. */
  lemma {:induction false} BaseNameIsTail(p: string)
    ensures var r := BaseName(p);
      '/' !in r && r == p[|p| - |r|..] && (|r| < |p| ==> p[|p| - |r| - 1] == '/')
  {
    if p != [] && p[|p| - 1] != '/' {
      var q := p[..|p| - 1];
      BaseNameIsTail(q);
      var r := BaseName(q);
      assert BaseName(p) == r + [p[|p| - 1]];
      assert p[|p| - |r| - 1..] == q[|q| - |r|..] + [p[|p| - 1]];
    }
  }

  /** The tail has no '/'. */
  lemma BaseNameHasNoSlash(p: string)
    ensures '/' !in BaseName(p)
  {
    BaseNameIsTail(p);
  }

  /** A suffix without '/' that is all of p or follows a '/' is the tail. */
  lemma {:induction false} BaseNameUnique(p: string, n: string)
    requires '/' !in n
    requires |n| <= |p| && p[|p| - |n|..] == n
    requires |n| == |p| || p[|p| - |n| - 1] == '/'
    ensures BaseName(p) == n
  {
    if n == [] {
      if p != [] {
        assert p[|p| - 1] == '/';
      }
    } else {
      var q := p[..|p| - 1];
      assert p[|p| - 1] == n[|n| - 1];
      assert n[|n| - 1] in n;
      var m := n[..|n| - 1];
      assert q[|q| - |m|..] == m;
      assert '/' !in m by {
        forall i | 0 <= i < |m| ensures m[i] != '/' {
          assert m[i] == n[i];
          assert n[i] in n;
        }
      }
      if |n| < |p| {
        assert q[|q| - |m| - 1] == p[|p| - |n| - 1];
      }
      BaseNameUnique(q, m);
      assert n == m + [n[|n| - 1]];
    }
  }

  /** Splitting off the tail undoes joining a name without '/' onto a folder. */
  lemma BaseNameOfJoin(folder: string, name: string)
    requires '/' !in name
    ensures BaseName(Join(folder, name)) == name
  {
    var p := Join(folder, name);
    if name != [] {
      assert name[0] in name;
    }
    if folder == [] || folder[|folder| - 1] == '/' {
      assert p == folder + name;
    } else {
      assert p == folder + "/" + name;
    }
    BaseNameUnique(p, name);
  }

  /** Index of the last '.' in s, or -1 when it has none. */
  function LastDot(s: string): (i: int)
    ensures -1 <= i < |s|
    ensures i >= 0 ==> s[i] == '.'
    ensures forall k :: i < k < |s| ==> s[k] != '.'
  {
    if s == [] then -1
    else if s[|s| - 1] == '.' then |s| - 1
    else LastDot(s[..|s| - 1])
  }

  /** The extension os.path.splitext(p) reports: from the last '.' of the final component, when
      that component has a character other than '.' before it; otherwise empty. */
  function Extension(p: string): string {
    var b := BaseName(p);
    var d := LastDot(b);
    if d >= 0 && exists k :: 0 <= k < d && b[k] != '.' then b[d..] else ""
  }

  /** The three properties in LastDot's contract determine its result. */
  lemma LastDotIs(s: string, i: nat)
    requires i < |s| && s[i] == '.'
    requires forall k :: i < k < |s| ==> s[k] != '.'
    ensures LastDot(s) == i
  {
  }

  /** The final component of folder + name, for a name without '/'. */
  lemma BaseNameAfterFolder(folder: string, name: string)
    requires folder == [] || folder[|folder| - 1] == '/'
    requires '/' !in name
    ensures BaseName(folder + name) == name
  {
    BaseNameUnique(folder + name, name);
  }

  /** A name with some character other than '.', followed by ".json", has the extension ".json",
      wherever it is placed. */
  lemma JsonExtensionAccepted(folder: string, stem: string)
    requires folder == [] || folder[|folder| - 1] == '/'
    requires '/' !in stem
    requires exists k :: 0 <= k < |stem| && stem[k] != '.'
    ensures Extension(folder + stem + ".json") == ".json"
  {
    var n := stem + ".json";
    var p := folder + stem + ".json";
    assert p == folder + n;
    JsonName(stem);
    BaseNameAfterFolder(folder, n);
    var k :| 0 <= k < |stem| && stem[k] != '.';
    ExtensionOf(p, n, |stem|, k);
  }

  lemma ExtensionOf(p: string, b: string, d: nat, k: nat)
    requires BaseName(p) == b && d < |b| && LastDot(b) == d
    requires k < d && b[k] != '.'
    ensures Extension(p) == b[d..]
  {
  }

  lemma JsonName(stem: string)
    requires '/' !in stem
    ensures var n := stem + ".json"; '/' !in n && LastDot(n) == |stem| && n[|stem|..] == ".json"
    ensures forall k :: 0 <= k < |stem| ==> (stem + ".json")[k] == stem[k]
  {
    var n := stem + ".json";
    assert n[|stem|..] == ".json";
    forall i | |stem| <= i < |n| ensures n[i] != '/' && (i > |stem| ==> n[i] != '.') {
      assert n[i] == ".json"[i - |stem|];
    }
    LastDotIs(n, |stem|);
  }

  /** Only a path that ends in ".json" with something before it has the extension ".json". */
  lemma JsonExtensionShape(p: string)
    requires Extension(p) == ".json"
    ensures |p| > 5 && p[|p| - 5..] == ".json"
  {
    BaseNameIsTail(p);
    var b := BaseName(p);
    var d := LastDot(b);
    assert b[d..] == ".json";
    assert d > 0;
    assert b[|b| - 5..] == b[d..];
    assert p[|p| - 5..] == b[|b| - 5..];
  }

  /** A bare ".json" counts as a hidden file's name, not an extension. */
  lemma DotJsonAloneRejected()
    ensures Extension(".json") == ""
  {
    var n := ".json";
    BaseNameAfterFolder("", n);
    assert "" + n == n;
    assert forall k :: 0 < k < |n| ==> n[k] != '.';
    LastDotIs(n, 0);
  }
}
