/** The path algebra: joining a parent path with a name, and taking a path apart again. */
module PathUtil {
  import opened Wrappers
  import opened JsStrings

  function BuildPath(parentPath: string, name: string): string {
    if parentPath == "" || parentPath == "/" then "/" + name else parentPath + "/" + name
  }

  function ExtractName(path: string): string {
    if path == "" || path == "/" then "" else
    var segments := NonEmpty(Split(path, "/"));
    if segments == [] then "" else segments[|segments| - 1]
  }

  function ExtractParentPath(path: string): Option<string> {
    if path == "" || path == "/" then None else
    var i := LastIndexOf(path, '/');
    if i <= 0 then Some("/") else Some(path[..i])
  }

  predicate IsValidPath(path: string) {
    && path != ""
    && (path == "/" || (path[0] == '/' && IndexOf(path, "//") == -1 && path[|path| - 1] != '/'))
  }

  lemma LastIndexUnique(s: string, c: char, i: nat)
    requires i < |s| && s[i] == c && forall k :: i < k < |s| ==> s[k] != c
    ensures LastIndexOf(s, c) == i
  {}

  lemma NoSlash(n: string)
    ensures IndexOf(n, "/") == -1 <==> '/' !in n
  {
    forall k ensures OccursAt(n, "/", k) <==> 0 <= k < |n| && n[k] == '/' { CharAt(n, '/', k); }
  }

  lemma FirstSlash(s: string, i: nat)
    requires i < |s| && s[i] == '/' && forall k :: 0 <= k < i ==> s[k] != '/'
    ensures IndexOf(s, "/") == i
  {
    forall k ensures OccursAt(s, "/", k) <==> 0 <= k < |s| && s[k] == '/' { CharAt(s, '/', k); }
    FirstIndex(s, "/", i);
  }

  lemma SplitStep(s: string, i: nat)
    requires IndexOf(s, "/") == i
    ensures i < |s| && Split(s, "/") == [s[..i]] + Split(s[i + 1..], "/")
  {}

  lemma SplitPlain(a: string, n: string)
    requires '/' !in n && '/' !in a
    ensures Split(a + "/" + n, "/") == Split(a, "/") + [n]
  {
    var s := a + "/" + n;
    NoSlash(a);
    NoSlash(n);
    FirstSlash(s, |a|);
    SplitStep(s, |a|);
    assert s[..|a|] == a && s[|a| + 1..] == n;
    assert Split(n, "/") == [n] && Split(a, "/") == [a];
  }

  lemma FirstSlashBehind(a: string, n: string, i: nat)
    requires '/' in a && i == IndexOf(a, "/")
    ensures i < |a| && IndexOf(a + "/" + n, "/") == i
  {
    NoSlash(a);
    forall k ensures OccursAt(a, "/", k) <==> 0 <= k < |a| && a[k] == '/' { CharAt(a, '/', k); }
    FirstSlash(a + "/" + n, i);
  }

  lemma SplitBehind(a: string, n: string, i: nat)
    requires '/' in a && i == IndexOf(a, "/") && i < |a|
    ensures Split(a, "/") == [a[..i]] + Split(a[i + 1..], "/")
    ensures Split(a + "/" + n, "/") == [a[..i]] + Split(a[i + 1..] + "/" + n, "/")
  {
    var s := a + "/" + n;
    FirstSlashBehind(a, n, i);
    assert s[..i] == a[..i] && s[i + 1..] == a[i + 1..] + "/" + n;
  }

  /** Splitting at slashes puts a slash-free last segment last. */
  lemma {:induction false} SplitLast(a: string, n: string)
    requires '/' !in n
    ensures Split(a + "/" + n, "/") == Split(a, "/") + [n]
    decreases |a|
  {
    if '/' !in a {
      SplitPlain(a, n);
    } else {
      NoSlash(a);
      var i := IndexOf(a, "/");
      FirstSlashBehind(a, n, i);
      SplitBehind(a, n, i);
      SplitLast(a[i + 1..], n);
    }
  }

  /** The last path segment survives whatever stands before it. */
  lemma ExtractNameOf(dir: string, n: string)
    requires n != "" && '/' !in n
    ensures ExtractName(dir + "/" + n) == n
  {
    SplitLast(dir, n);
    var parts := Split(dir, "/");
    assert (parts + [n])[..|parts|] == parts;
  }

  /** Taking a built path apart gives back the parent and the name. */
  lemma BuildPathRoundTrip(parentPath: string, name: string)
    requires name != "" && '/' !in name
    ensures ExtractName(BuildPath(parentPath, name)) == name
    ensures ExtractParentPath(BuildPath(parentPath, name)) ==
            Some(if parentPath == "" then "/" else parentPath)
  {
    var path := BuildPath(parentPath, name);
    if parentPath == "" || parentPath == "/" {
      assert path == "" + "/" + name;
      ExtractNameOf("", name);
      LastIndexUnique(path, '/', 0);
    } else {
      ExtractNameOf(parentPath, name);
      LastIndexUnique(path, '/', |parentPath|);
      assert path[..|parentPath|] == parentPath;
    }
  }

  /** Building from a valid parent and a slash-free name gives a valid path. */
  lemma BuildPathValid(parentPath: string, name: string)
    requires IsValidPath(parentPath) && name != "" && '/' !in name
    ensures IsValidPath(BuildPath(parentPath, name))
  {
    var path := BuildPath(parentPath, name);
    forall k ensures !OccursAt(path, "//", k) {
      DoubleSlashAt(path, k);
      DoubleSlashAt(parentPath, k);
    }
  }

  /** A valid path other than the root is built from its parent, which is valid, and its
      name; the root has neither. */
  lemma TakenApart(path: string)
    requires IsValidPath(path)
    ensures ExtractParentPath(path).None? <==> path == "/"
    ensures path == "/" ==> ExtractName(path) == ""
    ensures path != "/" ==>
              && ExtractName(path) != "" && '/' !in ExtractName(path)
              && IsValidPath(ExtractParentPath(path).value)
              && BuildPath(ExtractParentPath(path).value, ExtractName(path)) == path
  {
    if path != "/" {
      var i := LastIndexOf(path, '/');
      assert path[0] == '/' && i >= 0;
      var parent, name := path[..i], path[i + 1..];
      assert path == parent + "/" + name;
      ExtractNameOf(parent, name);
      if i > 0 { ParentValid(path, i); }
      hide ExtractName;
    }
  }

  lemma ParentValid(path: string, i: nat)
    requires IsValidPath(path) && 0 < i < |path| && path[i] == '/'
    ensures IsValidPath(path[..i]) && path[..i] != "/"
  {
    forall k ensures !OccursAt(path[..i], "//", k) {
      DoubleSlashAt(path[..i], k);
      DoubleSlashAt(path, k);
    }
    DoubleSlashAt(path, i - 1);
    assert !OccursAt(path, "//", i - 1);
  }

  /** The valid paths are the root and what is built on a valid path with a slash-free name. */
  lemma ValidPathExact(path: string)
    ensures IsValidPath(path) <==>
              path == "/" || exists parent, name :: IsValidPath(parent) && name != "" && '/' !in name && path == BuildPath(parent, name)
  {
    if IsValidPath(path) && path != "/" { TakenApart(path); }
    if parent, name :| IsValidPath(parent) && name != "" && '/' !in name && path == BuildPath(parent, name) { BuildPathValid(parent, name); }
  }

  lemma DoubleSlashAt(s: string, k: int)
    ensures OccursAt(s, "//", k) <==> 0 <= k < |s| - 1 && s[k] == '/' && s[k + 1] == '/'
  {
    if 0 <= k < |s| - 1 { assert s[k..k + 2] == [s[k], s[k + 1]]; }
  }
}
