/** When the bulk path update leaves a correct tree: exactly when the old path occurs only
    where it should. */
module FolderRewrite {
  import opened Wrappers
  import opened JsStrings
  import opened SqlText
  import opened SqlStatement
  import opened PathUtil
  import opened FolderTree

  /** Strictly below f, by paths. */
  predicate Below(rows: Rows, f: Id, g: Id)
    requires f in rows && g in rows
  {
    rows[f].path + "/" <= rows[g].path
  }

  /** The rewrite would touch the string s although it should stay; x is what the database
      replaces. */
  ghost predicate Touched(s: string, old_: string, x: string) {
    Like(s, old_ + "%") && Contains(s, x)
  }

  /** The statement is read as it was meant. */
  predicate Plain(old_: string, newPath: string) { '\'' !in old_ && '\'' !in newPath }

  /** What the bulk update does to g is what the tree needs: the folder's own new path and
      every path outside the subtree stay, and below it the old path occurs only in front.
      When the paths have doubled apostrophes and other text is replaced, the result below
      must happen to be right. */
  ghost predicate RewriteFits(rows: Rows, f: Id, newPath: string, g: Id)
    requires f in rows && g in rows && Readable(rows, f, newPath)
  {
    var old_, p := rows[f].path, Statement(rows[f].path, newPath).value;
    if g != f && Below(rows, f, g) then
      if Plain(old_, newPath) && old_ != newPath then !Contains(rows[g].path[|old_|..], old_)
      else ReplaceAll(rows[g].path, p.0, p.1) == newPath + rows[g].path[|old_|..]
    else p.0 == p.1 || !Touched(if g == f then newPath else rows[g].path, old_, p.0)
  }

  ghost predicate RewriteExact(rows: Rows, f: Id, newPath: string)
    requires f in rows && Readable(rows, f, newPath)
  {
    forall g {:trigger RewriteFits(rows, f, newPath, g)} :: Active(rows, g) ==> RewriteFits(rows, f, newPath, g)
  }

  /** The path each folder should end up with. */
  function Expected(rows: Rows, f: Id, newPath: string, g: Id): string
    requires f in rows && g in rows
  {
    if g == f then newPath
    else if Below(rows, f, g) then newPath + rows[g].path[|rows[f].path|..]
    else rows[g].path
  }

  /** A place f can be given: outside its own subtree, with a free valid name. */
  ghost predicate Place(rows: Rows, r: Id, f: Id, name: string, parentId: Id, newPath: string) {
    && TreeAt(rows, r) && Active(rows, f) && f != r
    && Active(rows, parentId) && parentId != f && !Below(rows, f, parentId)
    && ValidName(name) && newPath == BuildPath(rows[parentId].path, name)
    && !NameTaken(rows, Some(parentId), name, Some(f))
    && Readable(rows, f, newPath)
  }

  lemma RewrittenPath(s: string, old_: string, x: string, y: string)
    requires x != ""
    ensures (if Like(s, old_ + "%") then ReplaceAll(s, x, y) else s) == s <==> x == y || !Touched(s, old_, x)
  {
    if x == y { ReplaceSelf(s, x); } else { ReplaceFixed(s, x, y); }
  }

  /** What the save and the bulk update together do to one path. */
  function RewrittenTo(rows: Rows, f: Id, newPath: string, g: Id): string
    requires f in rows && g in rows && Readable(rows, f, newPath)
  {
    var p := Statement(rows[f].path, newPath).value;
    var s := if g == f then newPath else rows[g].path;
    if Like(s, rows[f].path + "%") then ReplaceAll(s, p.0, p.1) else s
  }

  lemma RelocatedRow(rows: Rows, f: Id, name: string, parentId: Option<Id>, newPath: string, g: Id)
    requires f in rows && g in rows && Readable(rows, f, newPath)
    ensures var rows2 := Relocate(rows, f, name, parentId, newPath);
            && rows2.Keys == rows.Keys
            && rows2[g] == Folder(if g == f then name else rows[g].name, if g == f then parentId else rows[g].parentId,
                                  RewrittenTo(rows, f, newPath, g), rows[g].state)
  {
    hide Statement, Like, ReplaceAll;
  }

  lemma BelowExact(old_: string, t: string, newPath: string)
    requires old_ != "" && '\\' !in old_ && old_ != newPath
    ensures (if Like(old_ + t, old_ + "%") then ReplaceAll(old_ + t, old_, newPath) else old_ + t) == newPath + t
            <==> !Contains(t, old_)
  {
    LikeOwnPrefix(old_, t);
    ReplaceHead(old_, t, newPath);
    ReplaceFixed(t, old_, newPath);
    assert (newPath + ReplaceAll(t, old_, newPath))[|newPath|..] == ReplaceAll(t, old_, newPath);
    assert (newPath + t)[|newPath|..] == t;
  }

  /** On one row: the bulk update yields the expected path iff the rewrite fits. */
  lemma RowExact(rows: Rows, r: Id, f: Id, newPath: string, g: Id)
    requires TreeAt(rows, r) && Active(rows, f) && f != r && Active(rows, g) && Readable(rows, f, newPath)
    ensures RewrittenTo(rows, f, newPath, g) == Expected(rows, f, newPath, g) <==> RewriteFits(rows, f, newPath, g)
  {
    var old_, p := rows[f].path, Statement(rows[f].path, newPath).value;
    var s := if g == f then newPath else rows[g].path;
    PathShape(rows, r, f);
    StatementHead(old_, newPath);
    StatementExact(old_, newPath);
    hide Statement, ReplaceAll, Like, Contains, TreeAt;
    if g != f && Below(rows, f, g) {
      assert s == old_ + s[|old_|..];
      LikeOwnPrefix(old_, s[|old_|..]);
      if old_ != newPath { BelowExact(old_, s[|old_|..], newPath); }
    } else {
      RewrittenPath(s, old_, p.0, p.1);
    }
  }

  lemma SamePathFits(rows: Rows, r: Id, f: Id, newPath: string)
    requires TreeAt(rows, r) && Active(rows, f) && f != r && rows[f].path == newPath && Plain(newPath, newPath)
    ensures Readable(rows, f, newPath) && RewriteExact(rows, f, newPath)
  {
    StatementExact(newPath, newPath);
    forall g: Id | Active(rows, g) ensures RewriteFits(rows, f, newPath, g) {
      ReplaceSelf(rows[g].path, newPath);
      if Below(rows, f, g) { assert newPath + rows[g].path[|newPath|..] == rows[g].path; }
    }
  }

  /** The old path stands in g's path only where the moved subtree has it. */
  ghost predicate OnlyInFront(rows: Rows, f: Id, newPath: string, g: Id)
    requires f in rows && g in rows
  {
    var old_ := rows[f].path;
    if g == f then !Touched(newPath, old_, old_)
    else if Below(rows, f, g) then !Contains(rows[g].path[|old_|..], old_)
    else !Touched(rows[g].path, old_, old_)
  }

  /** For paths without apostrophes the database accepts the update, and the rewrite is exact
      iff the path does not change or occurs only in front. */
  lemma PlainExact(rows: Rows, r: Id, f: Id, newPath: string)
    requires TreeAt(rows, r) && Active(rows, f) && f != r && Plain(rows[f].path, newPath)
    ensures Readable(rows, f, newPath)
    ensures RewriteExact(rows, f, newPath) <==>
            rows[f].path == newPath || forall g {:trigger OnlyInFront(rows, f, newPath, g)} :: Active(rows, g) ==> OnlyInFront(rows, f, newPath, g)
  {
    StatementExact(rows[f].path, newPath);
    if rows[f].path == newPath {
      SamePathFits(rows, r, f, newPath);
    } else {
      forall g: Id | Active(rows, g) ensures RewriteFits(rows, f, newPath, g) <==> OnlyInFront(rows, f, newPath, g) {
        PathShape(rows, r, f);
        hide Statement, Touched, Contains;
      }
    }
  }

  /** The expected paths are those of a tree with f in its new place. */
  lemma ExpectedBuilds(rows: Rows, r: Id, f: Id, name: string, parentId: Id, newPath: string, g: Id)
    requires Place(rows, r, f, name, parentId, newPath) && Active(rows, g) && g != r
    ensures g != f ==> rows[g].parentId.Some? && Active(rows, rows[g].parentId.value)
    ensures var p := if g == f then parentId else rows[g].parentId.value;
            var n := if g == f then name else rows[g].name;
            Expected(rows, f, newPath, g) == BuildPath(Expected(rows, f, newPath, p), n)
  {
    var old_ := rows[f].path;
    PathShape(rows, r, f);
    ValidNameChars(name);
    if g != f {
      assert Placed(rows, g);
      var p, n := rows[g].parentId.value, rows[g].name;
      BelowByParent(rows, r, f, g);
      PathShape(rows, r, g);
      PathShape(rows, r, p);
      if Below(rows, f, g) {
        assert p != r;
        assert rows[g].path == rows[p].path + "/" + n;
        if p == f {
          assert rows[g].path[|old_|..] == "/" + n;
        } else {
          assert rows[g].path[|old_|..] == rows[p].path[|old_|..] + "/" + n;
          assert newPath + (rows[p].path[|old_|..] + "/" + n) == newPath + rows[p].path[|old_|..] + "/" + n;
        }
        assert |Expected(rows, f, newPath, p)| >= 2;
      }
    }
  }

  lemma RelocatedNames(rows: Rows, r: Id, f: Id, name: string, parentId: Id, newPath: string)
    requires Place(rows, r, f, name, parentId, newPath)
    ensures var rows2 := Relocate(rows, f, name, Some(parentId), newPath);
            forall g, h {:trigger NotSiblingsAlike(rows2, g, h)} ::
              Active(rows2, g) && Active(rows2, h) ==> NotSiblingsAlike(rows2, g, h)
  {
    var rows2 := Relocate(rows, f, name, Some(parentId), newPath);
    forall g: Id, h: Id | Active(rows2, g) && Active(rows2, h) ensures NotSiblingsAlike(rows2, g, h) {
      assert Active(rows, g) && Active(rows, h);
      assert NotSiblingsAlike(rows, g, h);
    }
  }

  lemma {:induction false} PathsForced(rows: Rows, r: Id, f: Id, name: string, parentId: Id, newPath: string, g: Id)
    requires Place(rows, r, f, name, parentId, newPath) && Active(rows, g)
    requires TreeAt(Relocate(rows, f, name, Some(parentId), newPath), r)
    ensures Relocate(rows, f, name, Some(parentId), newPath)[g].path == Expected(rows, f, newPath, g)
    decreases |Expected(rows, f, newPath, g)|
  {
    var rows2 := Relocate(rows, f, name, Some(parentId), newPath);
    assert Active(rows2, g);
    if g == r {
      PathShape(rows, r, f);
      assert !Below(rows, f, r);
    } else {
      assert Placed(rows2, g);
      ExpectedBuilds(rows, r, f, name, parentId, newPath, g);
      var p := if g == f then parentId else rows[g].parentId.value;
      if g != f { assert Placed(rows, g); }
      PathsForced(rows, r, f, name, parentId, newPath, p);
    }
  }

  /** Only r can be the root after a relocation of another folder. */
  lemma SameRoot(rows: Rows, r: Id, f: Id, name: string, parentId: Id, newPath: string, q: Id)
    requires Place(rows, r, f, name, parentId, newPath)
    requires q in rows && q != r && Active(rows, q)
    ensures q in Relocate(rows, f, name, Some(parentId), newPath)
    ensures Relocate(rows, f, name, Some(parentId), newPath)[q].parentId.Some?
  {
    assert Placed(rows, q);
  }

  /** Main result: putting a folder into a fitting place leaves a correct tree iff the rewrite
      is exact: for paths without apostrophes, iff the old path occurs, among the active
      paths, only as the front of the moved subtree. */
  lemma RelocateExact(rows: Rows, r: Id, f: Id, name: string, parentId: Id, newPath: string)
    requires Place(rows, r, f, name, parentId, newPath)
    ensures Tree(Relocate(rows, f, name, Some(parentId), newPath)) <==> RewriteExact(rows, f, newPath)
    ensures RewriteExact(rows, f, newPath) ==> TreeAt(Relocate(rows, f, name, Some(parentId), newPath), r)
  {
    var rows2 := Relocate(rows, f, name, Some(parentId), newPath);
    if Tree(rows2) {
      var q :| TreeAt(rows2, q);
      if q != r { SameRoot(rows, r, f, name, parentId, newPath, q); }
      forall g: Id | Active(rows, g) ensures RewriteFits(rows, f, newPath, g) {
        PathsForced(rows, r, f, name, parentId, newPath, g);
        RowExact(rows, r, f, newPath, g);
        RelocatedRow(rows, f, name, Some(parentId), newPath, g);
      }
    }
    if RewriteExact(rows, f, newPath) {
      forall g: Id | Active(rows, g) ensures rows2[g].path == Expected(rows, f, newPath, g) {
        assert RewriteFits(rows, f, newPath, g);
        RowExact(rows, r, f, newPath, g);
        RelocatedRow(rows, f, name, Some(parentId), newPath, g);
      }
      forall g: Id | Active(rows2, g) && g != r ensures Placed(rows2, g) {
        assert Active(rows, g);
        assert g != f ==> Placed(rows, g);
        ExpectedBuilds(rows, r, f, name, parentId, newPath, g);
      }
      PathShape(rows, r, f);
      assert !Below(rows, f, r);
      assert Active(rows2, r) && rows2[r].path == "/";
      RelocatedNames(rows, r, f, name, parentId, newPath);
      assert TreeAt(rows2, r);
    }
  }

  // ------------------------------------------------------------------ the four commands

  lemma RenamedPathIs(rows: Rows, r: Id, f: Id, newName: string)
    requires TreeAt(rows, r) && Active(rows, f) && f != r
    ensures rows[f].parentId.Some? && Active(rows, rows[f].parentId.value)
    ensures RenamedPath(rows[f], newName) == BuildPath(rows[rows[f].parentId.value].path, newName)
  {
    assert Placed(rows, f);
    PathShape(rows, r, f);
    var p := rows[f].parentId.value;
    PathShape(rows, r, p);
    ValidNameChars(rows[f].name);
    if p == r {
      assert rows[f].path == "" + "/" + rows[f].name;
      LastSlash("", rows[f].name);
    } else {
      LastSlash(rows[p].path, rows[f].name);
      assert rows[f].path[..|rows[p].path|] == rows[p].path;
    }
  }

  lemma ParentNotBelow(rows: Rows, r: Id, f: Id)
    requires TreeAt(rows, r) && Active(rows, f) && f != r
    ensures rows[f].parentId.Some? && Active(rows, rows[f].parentId.value)
    ensures rows[f].parentId.value != f && !Below(rows, f, rows[f].parentId.value)
  {
    PathShape(rows, r, f);
  }

  /** A rename whose checks pass keeps the tree iff the folder is not the root and the
      rewrite is exact. */
  lemma RenameExact(rows: Rows, r: Id, f: Id, newName: string)
    requires TreeAt(rows, r) && Active(rows, f) && ValidName(newName)
    requires !NameTaken(rows, rows[f].parentId, newName, Some(f)) && Readable(rows, f, RenamedPath(rows[f], newName))
    ensures Tree(RenameRows(rows, f, newName)) <==> f != r && RewriteExact(rows, f, RenamedPath(rows[f], newName))
  {
    if f == r {
      var rows2 := RenameRows(rows, f, newName);
      forall q: Id ensures !TreeAt(rows2, q) {
        if q != r && Active(rows2, q) { assert Placed(rows, q); }
      }
    } else {
      RenamedPathIs(rows, r, f, newName);
      ParentNotBelow(rows, r, f);
      var p := rows[f].parentId.value;
      assert rows[f].parentId == Some(p);
      RelocateExact(rows, r, f, newName, p, RenamedPath(rows[f], newName));
    }
  }

  /** A move whose checks pass keeps the tree iff the folder is not the root and the rewrite
      is exact. */
  lemma MoveExact(rows: Rows, r: Id, f: Id, target: Id)
    requires TreeAt(rows, r) && Active(rows, f) && Active(rows, target)
    requires !CircularTest(rows, f, target) && !NameTaken(rows, Some(target), rows[f].name, None)
    requires Readable(rows, f, BuildPath(rows[target].path, rows[f].name))
    ensures Tree(MoveRows(rows, f, target)) <==>
            f != r && RewriteExact(rows, f, BuildPath(rows[target].path, rows[f].name))
  {
    if f == r {
      var rows2 := MoveRows(rows, f, target);
      forall q: Id ensures !TreeAt(rows2, q) {
        if q != r && Active(rows2, q) { assert Placed(rows, q); }
      }
    } else {
      assert Placed(rows, f);
      RelocateExact(rows, r, f, rows[f].name, target, BuildPath(rows[target].path, rows[f].name));
    }
  }

  /** A create whose checks pass keeps the tree iff it names a parent. */
  lemma CreateExact(rows: Rows, r: Id, newId: Id, name: string, parentId: Option<Id>)
    requires TreeAt(rows, r) && newId !in rows && ValidName(name)
    requires parentId.Some? ==> Active(rows, parentId.value)
    requires !NameTaken(rows, parentId, name, None)
    ensures Tree(CreateRows(rows, newId, name, parentId)) <==> parentId.Some?
    ensures parentId.Some? ==> TreeAt(CreateRows(rows, newId, name, parentId), r)
  {
    var rows2 := CreateRows(rows, newId, name, parentId);
    if parentId.None? {
      forall q: Id ensures !TreeAt(rows2, q) {
        assert Active(rows2, newId) && Active(rows2, r);
        assert !Placed(rows2, newId) && !Placed(rows2, r);
      }
    } else {
      forall g: Id | Active(rows2, g) && g != r ensures Placed(rows2, g) {
        if g != newId { assert Active(rows, g) && Placed(rows, g); }
      }
      forall g: Id, h: Id | Active(rows2, g) && Active(rows2, h) ensures NotSiblingsAlike(rows2, g, h) {
        if g != newId && h != newId { assert Active(rows, g) && Active(rows, h) && NotSiblingsAlike(rows, g, h); }
        else if g == newId && h != newId { assert Active(rows, h); }
        else if h == newId && g != newId { assert Active(rows, g); }
      }
      assert TreeAt(rows2, r);
    }
  }

  /** Trashing a folder without active subfolders keeps the tree iff it is not the root. */
  lemma TrashExact(rows: Rows, r: Id, f: Id)
    requires TreeAt(rows, r) && Active(rows, f)
    requires forall g :: Active(rows, g) ==> rows[g].parentId != Some(f)
    ensures Tree(TrashRows(rows, f)) <==> f != r
    ensures f != r ==> TreeAt(TrashRows(rows, f), r)
  {
    var rows2 := TrashRows(rows, f);
    if f == r {
      forall q: Id ensures !TreeAt(rows2, q) {
        if q != r && Active(rows2, q) { assert Placed(rows, q); }
      }
    } else {
      forall g: Id | Active(rows2, g) && g != r ensures Placed(rows2, g) {
        assert Active(rows, g) && Placed(rows, g);
      }
      forall g: Id, h: Id | Active(rows2, g) && Active(rows2, h) ensures NotSiblingsAlike(rows2, g, h) {
        assert NotSiblingsAlike(rows, g, h);
      }
      assert TreeAt(rows2, r);
    }
  }

  // ------------------------------------------------------------------ when it goes wrong

  lemma SlashAligned(p: string, a: string, b: string, i: int)
    requires '/' !in b
    ensures OccursAt(p + "/" + b, p + "/" + a, i) ==> i == 0
    ensures OccursAt(p + "/" + b, p + "/" + a, 0) <==> a <= b
  {
    var s, x := p + "/" + b, p + "/" + a;
    if OccursAt(s, x, i) {
      assert s[i..i + |x|][|p|] == '/';
      assert forall k :: |p| < k < |s| ==> s[k] == b[k - |p| - 1];
    }
    assert x <= s <==> a <= b by {
      assert s[|p| + 1..] == b && x[|p| + 1..] == a;
      if x <= s { assert s[..|x|][|p| + 1..] == a; }
      if a <= b { assert s == x + b[|a|..]; }
    }
  }

  /** A rename fits its own row iff the new name does not properly extend the old one:
      renaming "a" to "ab" rewrites the folder's own new path once more. */
  lemma RenameOwnRow(rows: Rows, r: Id, f: Id, newName: string)
    requires TreeAt(rows, r) && Active(rows, f) && f != r && ValidName(newName)
    requires Plain(rows[f].path, RenamedPath(rows[f], newName))
    ensures var newPath := RenamedPath(rows[f], newName);
            Readable(rows, f, newPath) && (RewriteFits(rows, f, newPath, f) <==> newName == rows[f].name || !(rows[f].name <= newName))
  {
    var old_, new_ := rows[f].path, RenamedPath(rows[f], newName);
    StatementExact(old_, new_);
    RenamedElsewhere(rows, r, f, newName);
    OwnPathTouched(rows, r, f, newName);
    hide Statement, TreeAt, ValidName, Touched;
  }

  lemma OwnPathTouched(rows: Rows, r: Id, f: Id, newName: string)
    requires TreeAt(rows, r) && Active(rows, f) && f != r && ValidName(newName)
    ensures Touched(RenamedPath(rows[f], newName), rows[f].path, rows[f].path) <==> rows[f].name <= newName
  {
    RenamedPathIs(rows, r, f, newName);
    assert Placed(rows, f);
    PathShape(rows, r, f);
    var par := rows[f].parentId.value;
    PathShape(rows, r, par);
    var p := if par == r then "" else rows[par].path;
    ValidNameChars(rows[f].name);
    ValidNameChars(newName);
    var old_, new_ := rows[f].path, RenamedPath(rows[f], newName);
    assert old_ == p + "/" + rows[f].name && new_ == p + "/" + newName;
    forall i ensures OccursAt(new_, old_, i) ==> i == 0 { SlashAligned(p, rows[f].name, newName, i); }
    SlashAligned(p, rows[f].name, newName, 0);
    if rows[f].name <= newName {
      var t := newName[|rows[f].name|..];
      assert new_ == old_ + t;
      LikeOwnPrefix(old_, t);
    }
  }

  /** Every active sibling whose name properly extends the folder's name blocks the rewrite. */
  lemma SiblingBlocks(rows: Rows, r: Id, f: Id, g: Id, newPath: string)
    requires TreeAt(rows, r) && Active(rows, f) && f != r && Active(rows, g) && g != f
    requires rows[g].parentId == rows[f].parentId && rows[f].name <= rows[g].name
    requires newPath != rows[f].path && Plain(rows[f].path, newPath)
    ensures Readable(rows, f, newPath) && !RewriteFits(rows, f, newPath, g)
  {
    StatementExact(rows[f].path, newPath);
    SiblingTouched(rows, r, f, g);
    hide Statement, TreeAt;
  }

  lemma SiblingTouched(rows: Rows, r: Id, f: Id, g: Id)
    requires TreeAt(rows, r) && Active(rows, f) && f != r && Active(rows, g) && g != f
    requires rows[g].parentId == rows[f].parentId && rows[f].name <= rows[g].name
    ensures !Below(rows, f, g) && Touched(rows[g].path, rows[f].path, rows[f].path)
  {
    PathShape(rows, r, f);
    PathShape(rows, r, g);
    assert Placed(rows, f) && Placed(rows, g);
    ValidNameChars(rows[g].name);
    var par := rows[f].parentId.value;
    var p := if par == r then "" else rows[par].path;
    PathShape(rows, r, par);
    var t := rows[g].name[|rows[f].name|..];
    assert rows[g].path == rows[f].path + t;
    LikeOwnPrefix(rows[f].path, t);
    assert OccursAt(rows[g].path, rows[f].path, 0);
    BelowByParent(rows, r, f, g);
  }

  lemma RenamedElsewhere(rows: Rows, r: Id, f: Id, newName: string)
    requires TreeAt(rows, r) && Active(rows, f) && f != r && ValidName(newName)
    ensures RenamedPath(rows[f], newName) == rows[f].path <==> newName == rows[f].name
  {
    RenamedPathIs(rows, r, f, newName);
    RenamedPathIs(rows, r, f, rows[f].name);
    assert Placed(rows, f);
    BuildPathRoundTrip(rows[rows[f].parentId.value].path, newName);
    BuildPathRoundTrip(rows[rows[f].parentId.value].path, rows[f].name);
  }

  /** In plain terms: an accepted rename to a name that properly extends the old one breaks
      the tree. */
  lemma ExtensionBreaks(rows: Rows, r: Id, f: Id, newName: string)
    requires TreeAt(rows, r) && Active(rows, f) && f != r && ValidName(newName) && newName != rows[f].name
    requires !NameTaken(rows, rows[f].parentId, newName, Some(f)) && Plain(rows[f].path, RenamedPath(rows[f], newName))
    requires rows[f].name <= newName
    ensures Readable(rows, f, RenamedPath(rows[f], newName)) && !Tree(RenameRows(rows, f, newName))
  {
    RenameOwnRow(rows, r, f, newName);
    hide RewriteFits, Readable, TreeAt, Tree;
    RenameExact(rows, r, f, newName);
  }

  /** So does any accepted rename of a folder whose name an active sibling's name extends. */
  lemma SiblingBreaks(rows: Rows, r: Id, f: Id, newName: string, g: Id)
    requires TreeAt(rows, r) && Active(rows, f) && f != r && ValidName(newName) && newName != rows[f].name
    requires !NameTaken(rows, rows[f].parentId, newName, Some(f)) && Plain(rows[f].path, RenamedPath(rows[f], newName))
    requires Active(rows, g) && g != f && rows[g].parentId == rows[f].parentId && rows[f].name <= rows[g].name
    ensures Readable(rows, f, RenamedPath(rows[f], newName)) && !Tree(RenameRows(rows, f, newName))
  {
    RenamedElsewhere(rows, r, f, newName);
    SiblingBlocks(rows, r, f, g, RenamedPath(rows[f], newName));
    hide RewriteFits, Readable, TreeAt, Tree;
    RenameExact(rows, r, f, newName);
  }

  /** A root with the two folders "a" and "ab". */
  function TwoSiblings(): Rows {
    map[0 := Folder("", None, "/", ACTIVE),
        1 := Folder("a", Some(0), "/a", ACTIVE),
        2 := Folder("ab", Some(0), "/ab", ACTIVE)]
  }

  lemma TwoSiblingsTree()
    ensures TreeAt(TwoSiblings(), 0) && ValidName("c")
  {
    var rows := TwoSiblings();
    assert ValidName("a") by { assert !IsSpace("a"[0]); }
    assert ValidName("ab") by { assert !IsSpace("ab"[0]); }
    assert ValidName("c") by { assert !IsSpace("c"[0]); }
    assert Placed(rows, 1) && Placed(rows, 2);
  }

  /** Renaming "a" to "c" next to a folder "ab" moves the sibling's path to "/cb". */
  lemma RenameBreaksSibling()
    ensures RenamedPath(TwoSiblings()[1], "c") == "/c" && Readable(TwoSiblings(), 1, "/c")
    ensures !Tree(RenameRows(TwoSiblings(), 1, "c"))
    ensures RenameRows(TwoSiblings(), 1, "c")[2] == Folder("ab", Some(0), "/cb", ACTIVE)
  {
    var rows := TwoSiblings();
    TwoSiblingsTree();
    RenamedPathIs(rows, 0, 1, "c");
    assert RenamedPath(rows[1], "c") == "/c";
    SiblingBreaks(rows, 0, 1, "c", 2);
    RelocatedRow(rows, 1, "c", Some(0), "/c", 2);
    SiblingRow();
  }

  lemma SiblingRow()
    ensures Readable(TwoSiblings(), 1, "/c") && RewrittenTo(TwoSiblings(), 1, "/c", 2) == "/cb"
  {
    StatementExact("/a", "/c");
    assert "/a" + "b" == "/ab" && "/c" + "b" == "/cb";
    LikeOwnPrefix("/a", "b");
    ReplaceHead("/a", "b", "/c");
    assert IndexOf("b", "/a") == -1;
    hide Statement, ReplaceAll, Like;
  }

  /** A folder whose name has two apostrophes in a row, with a subfolder. */
  function Doubly(): Rows {
    map[0 := Folder("", None, "/", ACTIVE),
        1 := Folder("a''", Some(0), "/a''", ACTIVE),
        2 := Folder("c", Some(1), "/a''/c", ACTIVE)]
  }

  lemma DoublyTree()
    ensures TreeAt(Doubly(), 0)
  {
    var rows := Doubly();
    assert ValidName("a''") by { assert !IsSpace("a''"[0]); }
    assert ValidName("c") by { assert !IsSpace("c"[0]); }
    assert BuildPath("/a''", "c") == "/a''/c";
    assert Placed(rows, 1) && Placed(rows, 2);
  }

  lemma DoublyRead()
    ensures Statement("/a''", "/b") == Some(("/a'", "/b"))
  {
    assert Doubled("/a'") == "/a''" && Doubled("/b") == "/b";
    DoublingSuffices("/a'", "/b");
    hide Statement;
  }

  lemma DoublyRow()
    ensures Readable(Doubly(), 1, "/b") && RewrittenTo(Doubly(), 1, "/b", 2) == "/b'/c"
  {
    DoublyRead();
    assert "/a''" + "/c" == "/a''/c" && "/a'" + "'/c" == "/a''/c" && "/b" + "'/c" == "/b'/c";
    LikeOwnPrefix("/a''", "/c");
    ReplaceHead("/a'", "'/c", "/b");
    assert IndexOf("'/c", "/a'") == -1;
    hide Statement, ReplaceAll, Like;
  }

  lemma DoublyRenamed()
    ensures RenamedPath(Doubly()[1], "b") == "/b" && ValidName("b") && !NameTaken(Doubly(), Some(0), "b", Some(1))
  {
    DoublyTree();
    RenamedPathIs(Doubly(), 0, 1, "b");
    assert ValidName("b") by { assert !IsSpace("b"[0]); }
  }

  lemma DoublyUnfit()
    ensures Readable(Doubly(), 1, "/b") && !RewriteFits(Doubly(), 1, "/b", 2)
  {
    DoublyTree();
    DoublyRow();
    RowExact(Doubly(), 0, 1, "/b", 2);
    assert Expected(Doubly(), 1, "/b", 2) == "/b/c";
    hide RewriteFits, RewrittenTo;
  }

  /** Its rename to "b" is accepted, replaces one apostrophe too few below, and breaks the
      tree. */
  lemma ApostropheBreaks()
    ensures RenamedPath(Doubly()[1], "b") == "/b" && Readable(Doubly(), 1, "/b")
    ensures RenameRows(Doubly(), 1, "b")[2].path == "/b'/c" && !Tree(RenameRows(Doubly(), 1, "b"))
  {
    var rows := Doubly();
    DoublyTree();
    DoublyRow();
    DoublyRenamed();
    DoublyUnfit();
    hide TreeAt, Tree, Readable, RewriteFits, RewrittenTo, ValidName, NameTaken, Relocate;
    RelocatedRow(rows, 1, "b", Some(0), "/b", 2);
    RenameExact(rows, 0, 1, "b");
  }
}
