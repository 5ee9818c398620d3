/** Folders with materialised paths: what it means for the paths to be right, and the row
    changes that create, rename, move and trash make. */
module FolderTree {
  import opened Wrappers
  import opened JsStrings
  import opened SqlText
  import opened SqlStatement
  import opened PathUtil

  type Id = nat

  datatype FolderState = ACTIVE | TRASHED | DELETED

  datatype Folder = Folder(name: string, parentId: Option<Id>, path: string, state: FolderState)

  type Rows = map<Id, Folder>

  const INVALID_NAME_CHARS: set<char> := {'<', '>', ':', '"', '/', '\\', '|', '?', '*'}
  const MAX_NAME_LENGTH := 255

  predicate ValidName(name: string) {
    && (exists i :: 0 <= i < |name| && !IsSpace(name[i]))
    && (forall i :: 0 <= i < |name| ==> name[i] !in INVALID_NAME_CHARS)
    && |name| <= MAX_NAME_LENGTH
  }

  /** A name is valid iff trimming leaves something of it, it is no longer than 255
      characters, and has none of the forbidden ones. */
  lemma NameExact(name: string)
    ensures ValidName(name) <==>
              Trim(name) != "" && |name| <= 255 && forall i :: 0 <= i < |name| ==> name[i] !in "<>:\"/\\|?*"
  {
    var before, after := TrimExact(name);
    var t := Trim(name);
    if t == "" {
      forall i | 0 <= i < |name| ensures IsSpace(name[i]) {
        assert name[i] == if i < |before| then before[i] else after[i - |before|];
      }
    } else {
      assert name[|before|] == t[0];
    }
    var forbidden := "<>:\"/\\|?*";
    assert forbidden == ['<', '>', ':', '"', '/', '\\', '|', '?', '*'];
    assert forall c :: c in forbidden <==> c in INVALID_NAME_CHARS;
  }

  predicate Active(rows: Rows, g: Id) {
    g in rows && rows[g].state == ACTIVE
  }

  /** An active folder other than `except` with this parent and name exists. */
  predicate NameTaken(rows: Rows, parentId: Option<Id>, name: string, except: Option<Id>) {
    exists g :: g in rows && Active(rows, g) && rows[g].parentId == parentId && rows[g].name == name && Some(g) != except
  }

  /** g stands in an active parent, and its path is the parent's path plus its name. */
  ghost predicate Placed(rows: Rows, g: Id)
    requires g in rows
  {
    && rows[g].parentId.Some? && Active(rows, rows[g].parentId.value)
    && ValidName(rows[g].name)
    && rows[g].path == BuildPath(rows[rows[g].parentId.value].path, rows[g].name)
  }

  ghost predicate NotSiblingsAlike(rows: Rows, g: Id, h: Id)
    requires g in rows && h in rows
  {
    g != h && rows[g].parentId == rows[h].parentId ==> rows[g].name != rows[h].name
  }

  /** r is the root of a tree in which every other active folder is in its place and
      siblings have different names. */
  ghost predicate TreeAt(rows: Rows, r: Id) {
    && Active(rows, r) && rows[r] == Folder("", None, "/", ACTIVE)
    && (forall g {:trigger Placed(rows, g)} :: Active(rows, g) && g != r ==> Placed(rows, g))
    && (forall g, h {:trigger NotSiblingsAlike(rows, g, h)} ::
          Active(rows, g) && Active(rows, h) ==> NotSiblingsAlike(rows, g, h))
  }

  ghost predicate Tree(rows: Rows) {
    exists r :: TreeAt(rows, r)
  }

  // ------------------------------------------------------------------ the row changes

  /** The repository's bulk update: every row whose path is LIKE the old path followed by
      anything gets all occurrences replaced of what the database reads as the old path. No
      separator is added. */
  function UpdatePathByPrefix(rows: Rows, oldPrefix: string, newPrefix: string): Rows
    requires Statement(oldPrefix, newPrefix).Some?
  {
    var p := Statement(oldPrefix, newPrefix).value;
    map g | g in rows ::
      if Like(rows[g].path, oldPrefix + "%")
      then rows[g].(path := ReplaceAll(rows[g].path, p.0, p.1))
      else rows[g]
  }

  /** The database accepts the bulk update that puts f at the new path. */
  predicate Readable(rows: Rows, f: Id, newPath: string)
    requires f in rows
  {
    Statement(rows[f].path, newPath).Some?
  }

  function CreateRows(rows: Rows, newId: Id, name: string, parentId: Option<Id>): Rows
    requires parentId.Some? ==> parentId.value in rows
  {
    var parentPath := if parentId.Some? then rows[parentId.value].path else "";
    rows[newId := Folder(name, parentId, BuildPath(parentPath, name), ACTIVE)]
  }

  /** The new path of a renamed folder, computed from its old path. */
  function RenamedPath(folder: Folder, newName: string): string {
    var slash := LastIndexOf(folder.path, '/');
    var parentPath := if folder.parentId.Some? && slash >= 0 then folder.path[..slash] else "";
    if parentPath != "" then parentPath + "/" + newName else "/" + newName
  }

  /** Save the folder with its new place, then run the bulk update. */
  function Relocate(rows: Rows, f: Id, name: string, parentId: Option<Id>, newPath: string): Rows
    requires f in rows && Readable(rows, f, newPath)
  {
    var saved := rows[f := rows[f].(name := name, parentId := parentId, path := newPath)];
    UpdatePathByPrefix(saved, rows[f].path, newPath)
  }

  function RenameRows(rows: Rows, f: Id, newName: string): Rows
    requires f in rows && Readable(rows, f, RenamedPath(rows[f], newName))
  {
    Relocate(rows, f, newName, rows[f].parentId, RenamedPath(rows[f], newName))
  }

  function MoveRows(rows: Rows, f: Id, target: Id): Rows
    requires f in rows && target in rows && Readable(rows, f, BuildPath(rows[target].path, rows[f].name))
  {
    Relocate(rows, f, rows[f].name, Some(target), BuildPath(rows[target].path, rows[f].name))
  }

  function TrashRows(rows: Rows, f: Id): Rows
    requires f in rows
  {
    rows[f := rows[f].(state := TRASHED)]
  }

  /** The string test of the move: the target is the folder itself or its path starts with
      the folder's path and a separator. */
  predicate CircularTest(rows: Rows, f: Id, target: Id)
    requires f in rows && target in rows
  {
    rows[f].path + "/" <= rows[target].path || target == f
  }

  // ------------------------------------------------------------------ shape of paths

  lemma ValidNameChars(name: string)
    requires ValidName(name)
    ensures name != "" && '/' !in name && '\\' !in name
  {}

  /** Paths of active folders start with a slash; below the root they are longer than that
      and longer than their parent's, and contain no backslash. */
  lemma {:induction false} PathShape(rows: Rows, r: Id, g: Id)
    requires TreeAt(rows, r) && Active(rows, g)
    ensures rows[g].path != "" && rows[g].path[0] == '/' && '\\' !in rows[g].path
    ensures g != r ==> rows[g].parentId.Some? && Active(rows, rows[g].parentId.value)
    ensures g != r ==> |rows[g].path| >= 2 && |rows[rows[g].parentId.value].path| < |rows[g].path|
    ensures g != r && rows[g].parentId != Some(r) ==>
              rows[g].path == rows[rows[g].parentId.value].path + "/" + rows[g].name
    ensures rows[g].parentId == Some(r) ==> rows[g].path == "/" + rows[g].name
    ensures g == r ==> rows[g].parentId.None?
    decreases |rows[g].path|
  {
    if g != r {
      assert Placed(rows, g);
      var p := rows[g].parentId.value;
      ValidNameChars(rows[g].name);
      PathShape(rows, r, p);
    }
  }

  lemma LastSlash(a: string, n: string)
    requires '/' !in n
    ensures LastIndexOf(a + "/" + n, '/') == |a|
  {
    LastIndexUnique(a + "/" + n, '/', |a|);
  }

  /** Equal strings cut at their last slash are cut alike. */
  lemma SameCut(a: string, n: string, b: string, m: string)
    requires '/' !in n && '/' !in m && a + "/" + n == b + "/" + m
    ensures a == b && n == m
  {
    LastSlash(a, n);
    LastSlash(b, m);
    assert (a + "/" + n)[..|a|] == a && (b + "/" + m)[..|b|] == b;
    assert (a + "/" + n)[|a| + 1..] == n && (b + "/" + m)[|b| + 1..] == m;
  }

  /** No two active folders share a path. */
  lemma {:induction false} PathsDistinct(rows: Rows, r: Id, g: Id, h: Id)
    requires TreeAt(rows, r) && Active(rows, g) && Active(rows, h) && rows[g].path == rows[h].path
    ensures g == h
    decreases |rows[g].path|
  {
    PathShape(rows, r, g);
    PathShape(rows, r, h);
    if g != r && h != r {
      assert Placed(rows, g) && Placed(rows, h) && NotSiblingsAlike(rows, g, h);
      var p, q := rows[g].parentId.value, rows[h].parentId.value;
      ValidNameChars(rows[g].name);
      ValidNameChars(rows[h].name);
      PathShape(rows, r, p);
      PathShape(rows, r, q);
      var a := if p == r then "" else rows[p].path;
      var b := if q == r then "" else rows[q].path;
      assert rows[g].path == a + "/" + rows[g].name && rows[h].path == b + "/" + rows[h].name;
      SameCut(a, rows[g].name, b, rows[h].name);
      if p != r && q != r { PathsDistinct(rows, r, p, q); }
      assert p == q;
    }
  }

  /** A slash-free last segment cannot complete a directory prefix. */
  lemma PrefixOfChild(d: string, p: string, n: string)
    requires '/' !in n
    ensures d + "/" <= p + "/" + n <==> d == p || d + "/" <= p
  {
    var c := p + "/" + n;
    if d + "/" <= c {
      assert c[|d|] == (d + "/")[|d|] == '/';
      assert forall k :: |p| < k < |c| ==> c[k] == n[k - |p| - 1] && c[k] != '/';
      assert |d| <= |p|;
      assert d == c[..|d|] == p[..|d|];
      if |d| < |p| { assert (d + "/") == c[..|d| + 1] == p[..|d| + 1]; }
    }
    if d == p { assert c[..|d| + 1] == d + "/"; }
    if d + "/" <= p { assert c[..|d| + 1] == p[..|d| + 1]; }
  }

  /** Strictly below f by the string test iff the parent is f or is below f. */
  lemma BelowByParent(rows: Rows, r: Id, f: Id, g: Id)
    requires TreeAt(rows, r) && Active(rows, f) && f != r && Active(rows, g) && g != r
    ensures rows[g].parentId.Some? && Active(rows, rows[g].parentId.value)
    ensures var p := rows[g].parentId.value;
            rows[f].path + "/" <= rows[g].path <==> p == f || rows[f].path + "/" <= rows[p].path
  {
    assert Placed(rows, g);
    var p := rows[g].parentId.value;
    ValidNameChars(rows[g].name);
    PathShape(rows, r, g);
    PathShape(rows, r, p);
    PathShape(rows, r, f);
    if p == r {
      PrefixOfChild(rows[f].path, "", rows[g].name);
      assert rows[g].path == "" + "/" + rows[g].name;
    } else {
      PrefixOfChild(rows[f].path, rows[p].path, rows[g].name);
      if rows[f].path == rows[p].path { PathsDistinct(rows, r, f, p); }
    }
  }

  // ------------------------------------------------------------------ descent

  /** c walks from a folder up to an ancestor along parent pointers. */
  ghost predicate ParentChain(rows: Rows, c: seq<Id>) {
    && |c| >= 2
    && forall i :: 0 <= i < |c| - 1 ==> Active(rows, c[i]) && rows[c[i]].parentId == Some(c[i + 1])
  }

  ghost predicate Descends(rows: Rows, g: Id, f: Id) {
    exists c :: ParentChain(rows, c) && c[0] == g && c[|c| - 1] == f
  }

  lemma {:induction false} ChainShortens(rows: Rows, r: Id, c: seq<Id>)
    requires TreeAt(rows, r) && ParentChain(rows, c)
    ensures Active(rows, c[|c| - 1]) && |rows[c[|c| - 1]].path| < |rows[c[0]].path|
    decreases |c|
  {
    assert Active(rows, c[0]) && rows[c[0]].parentId == Some(c[1]);
    PathShape(rows, r, c[0]);
    if |c| > 2 {
      forall i | 0 <= i < |c[1..]| - 1
        ensures Active(rows, c[1..][i]) && rows[c[1..][i]].parentId == Some(c[1..][i + 1])
      { assert c[1..][i] == c[i + 1]; }
      ChainShortens(rows, r, c[1..]);
    }
  }

  /** Parent pointers never run in a circle. */
  lemma Acyclic(rows: Rows, g: Id)
    requires Tree(rows)
    ensures !Descends(rows, g, g)
  {
    var r :| TreeAt(rows, r);
    forall c | ParentChain(rows, c) && c[0] == g ensures c[|c| - 1] != g { ChainShortens(rows, r, c); }
  }

  lemma {:induction false} ChainIsBelow(rows: Rows, r: Id, f: Id, c: seq<Id>)
    requires TreeAt(rows, r) && ParentChain(rows, c) && c[|c| - 1] == f && f != r && Active(rows, f)
    ensures rows[f].path + "/" <= rows[c[0]].path
    decreases |c|
  {
    assert Active(rows, c[0]) && rows[c[0]].parentId == Some(c[1]);
    BelowByParent(rows, r, f, c[0]);
    if |c| > 2 {
      forall i | 0 <= i < |c[1..]| - 1
        ensures Active(rows, c[1..][i]) && rows[c[1..][i]].parentId == Some(c[1..][i + 1])
      { assert c[1..][i] == c[i + 1]; }
      ChainIsBelow(rows, r, f, c[1..]);
    }
  }

  lemma {:induction false} BelowHasChain(rows: Rows, r: Id, f: Id, g: Id) returns (c: seq<Id>)
    requires TreeAt(rows, r) && Active(rows, f) && f != r && Active(rows, g)
    requires rows[f].path + "/" <= rows[g].path
    ensures ParentChain(rows, c) && c[0] == g && c[|c| - 1] == f
    decreases |rows[g].path|
  {
    PathShape(rows, r, g);
    PathShape(rows, r, f);
    BelowByParent(rows, r, f, g);
    var p := rows[g].parentId.value;
    if p == f {
      c := [g, f];
    } else {
      var c1 := BelowHasChain(rows, r, f, p);
      c := [g] + c1;
    }
  }

  lemma {:induction false} RootHasChain(rows: Rows, r: Id, g: Id) returns (c: seq<Id>)
    requires TreeAt(rows, r) && Active(rows, g) && g != r
    ensures ParentChain(rows, c) && c[0] == g && c[|c| - 1] == r
    decreases |rows[g].path|
  {
    PathShape(rows, r, g);
    var p := rows[g].parentId.value;
    if p == r { c := [g, r]; }
    else {
      var c1 := RootHasChain(rows, r, p);
      c := [g] + c1;
    }
  }

  /** The string test says exactly "the folder itself or a descendant", except for the root:
      there it only recognises the root itself, although every folder descends from it. */
  lemma CircularTestExact(rows: Rows, r: Id, f: Id, t: Id)
    requires TreeAt(rows, r) && Active(rows, f) && Active(rows, t)
    ensures f != r ==> (CircularTest(rows, f, t) <==> t == f || Descends(rows, t, f))
    ensures f == r ==> (CircularTest(rows, f, t) <==> t == f)
    ensures f == r && t != f ==> Descends(rows, t, f)
  {
    if f != r {
      if rows[f].path + "/" <= rows[t].path { var c := BelowHasChain(rows, r, f, t); }
      if Descends(rows, t, f) {
        var c :| ParentChain(rows, c) && c[0] == t && c[|c| - 1] == f;
        ChainIsBelow(rows, r, f, c);
      }
    } else if t != r {
      var c := RootHasChain(rows, r, t);
      NoDoubleSlash(rows, r, t);
    }
  }

  lemma NoDoubleSlash(rows: Rows, r: Id, t: Id)
    requires TreeAt(rows, r) && Active(rows, t) && t != r
    ensures |rows[t].path| >= 2 && rows[t].path[1] != '/'
    decreases |rows[t].path|
  {
    assert Placed(rows, t);
    PathShape(rows, r, t);
    ValidNameChars(rows[t].name);
    var p := rows[t].parentId.value;
    if p != r {
      NoDoubleSlash(rows, r, p);
    }
  }
}
