/** The folder command service: its checks in order, the state it changes, and what whole
    runs of commands keep. */
module FolderCommands {
  import opened Wrappers
  import opened PathUtil
  import opened SqlStatement
  import opened SqlText
  import opened FolderTree
  import opened FolderRewrite

  datatype Status = AVAILABLE | SYNCING | MOVING | ERROR

  datatype NasObject = NasObject(objectKey: string, status: Status)

  datatype Store = Store(folders: Rows, objects: map<Id, NasObject>)

  datatype Error =
    | INVALID_NAME | PARENT_NOT_FOUND | DUPLICATE_EXISTS | FOLDER_NOT_FOUND | FOLDER_NOT_ACTIVE
    | FOLDER_SYNCING | TARGET_NOT_FOUND | CIRCULAR_MOVE | ALREADY_TRASHED | NOT_EMPTY
    | QUERY_FAILED

  datatype Command =
    | Create(newId: Id, name: string, parentId: Option<Id>)
    | Rename(id: Id, newName: string)
    | Move(id: Id, targetParentId: Id)
    | Delete(id: Id, fileCount: nat)
    | NasDone(id: Id)   // the NAS worker reports the folder as available

  predicate IsSyncing(s: Store, id: Id) {
    id in s.objects && s.objects[id].status == SYNCING
  }

  /** The first check of the command that fails; the last is the database's, which takes a
      bulk update it cannot read for an error. */
  function Refusal(s: Store, c: Command): Option<Error> {
    match c
    case Create(_, name, parentId) =>
      if !ValidName(name) then Some(INVALID_NAME)
      else if parentId.Some? && !Active(s.folders, parentId.value) then Some(PARENT_NOT_FOUND)
      else if NameTaken(s.folders, parentId, name, None) then Some(DUPLICATE_EXISTS)
      else None
    case Rename(id, newName) =>
      if !ValidName(newName) then Some(INVALID_NAME)
      else if id !in s.folders then Some(FOLDER_NOT_FOUND)
      else if !Active(s.folders, id) then Some(FOLDER_NOT_ACTIVE)
      else if IsSyncing(s, id) then Some(FOLDER_SYNCING)
      else if NameTaken(s.folders, s.folders[id].parentId, newName, Some(id)) then Some(DUPLICATE_EXISTS)
      else if !Readable(s.folders, id, RenamedPath(s.folders[id], newName)) then Some(QUERY_FAILED)
      else None
    case Move(id, target) =>
      if !Active(s.folders, target) then Some(TARGET_NOT_FOUND)
      else if id !in s.folders then Some(FOLDER_NOT_FOUND)
      else if !Active(s.folders, id) then Some(FOLDER_NOT_ACTIVE)
      else if CircularTest(s.folders, id, target) then Some(CIRCULAR_MOVE)
      else if IsSyncing(s, id) then Some(FOLDER_SYNCING)
      else if NameTaken(s.folders, Some(target), s.folders[id].name, None) then Some(DUPLICATE_EXISTS)
      else if !Readable(s.folders, id, BuildPath(s.folders[target].path, s.folders[id].name)) then Some(QUERY_FAILED)
      else None
    case Delete(id, fileCount) =>
      if id !in s.folders then Some(FOLDER_NOT_FOUND)
      else if s.folders[id].state == TRASHED then Some(ALREADY_TRASHED)
      else if !Active(s.folders, id) then Some(FOLDER_NOT_ACTIVE)
      else if HasActiveChild(s.folders, id) || fileCount > 0 then Some(NOT_EMPTY)
      else if IsSyncing(s, id) then Some(FOLDER_SYNCING)
      else None
    case NasDone(_) => None
  }

  predicate HasActiveChild(rows: Rows, id: Id) {
    exists g :: g in rows && Active(rows, g) && rows[g].parentId == Some(id)
  }

  function Rekeyed(objects: map<Id, NasObject>, id: Id, objectKey: string): map<Id, NasObject> {
    if id in objects then objects[id := NasObject(objectKey, SYNCING)] else objects
  }

  /** The committed effect; a refused command is rolled back. */
  function Exec(s: Store, c: Command): Store {
    if Refusal(s, c) != None then s else
    match c
    case Create(newId, name, parentId) =>
      var rows := CreateRows(s.folders, newId, name, parentId);
      Store(rows, s.objects[newId := NasObject(rows[newId].path, SYNCING)])
    case Rename(id, newName) =>
      Store(RenameRows(s.folders, id, newName),
            Rekeyed(s.objects, id, RenamedPath(s.folders[id], newName)))
    case Move(id, target) =>
      Store(MoveRows(s.folders, id, target),
            Rekeyed(s.objects, id, BuildPath(s.folders[target].path, s.folders[id].name)))
    case Delete(id, _) =>
      Store(TrashRows(s.folders, id),
            if id in s.objects then s.objects[id := s.objects[id].(status := SYNCING)] else s.objects)
    case NasDone(id) =>
      if id in s.objects then s.(objects := s.objects[id := s.objects[id].(status := AVAILABLE)]) else s
  }

  /** What a caller can check beforehand: the root is left alone, a create names a parent,
      and the bulk path update would touch only the moved subtree. */
  ghost predicate Safe(s: Store, c: Command)
    requires Refusal(s, c).None?
  {
    match c
    case Create(_, _, parentId) => parentId.Some?
    case Rename(id, newName) =>
      s.folders[id].parentId.Some? && RewriteExact(s.folders, id, RenamedPath(s.folders[id], newName))
    case Move(id, target) =>
      s.folders[id].parentId.Some?
      && RewriteExact(s.folders, id, BuildPath(s.folders[target].path, s.folders[id].name))
    case Delete(id, _) => s.folders[id].parentId.Some?
    case NasDone(_) => true
  }

  /** Ids of new folders are fresh. */
  predicate Fresh(s: Store, c: Command) {
    c.Create? ==> c.newId !in s.folders
  }

  lemma RootByParent(rows: Rows, r: Id, f: Id)
    requires TreeAt(rows, r) && Active(rows, f)
    ensures f == r <==> rows[f].parentId.None?
  {
    if f != r { assert Placed(rows, f); }
  }

  /** On a correct tree, a command leaves a correct tree iff it is refused or safe. */
  lemma StepExact(s: Store, c: Command)
    requires Tree(s.folders) && Fresh(s, c)
    ensures Tree(Exec(s, c).folders) <==> Refusal(s, c).Some? || Safe(s, c)
  {
    var r :| TreeAt(s.folders, r);
    if Refusal(s, c).None? {
      match c
      case Create(newId, name, parentId) => CreateExact(s.folders, r, newId, name, parentId);
      case Rename(id, newName) =>
        RootByParent(s.folders, r, id);
        RenameExact(s.folders, r, id, newName);
      case Move(id, target) =>
        RootByParent(s.folders, r, id);
        MoveExact(s.folders, r, id, target);
      case Delete(id, _) =>
        RootByParent(s.folders, r, id);
        TrashExact(s.folders, r, id);
      case NasDone(_) =>
    }
  }

  /** A run of commands with fresh ids, through correct trees only. */
  ghost predicate CorrectRun(s: Store, cs: seq<Command>)
    decreases |cs|
  {
    Tree(s.folders) && (cs != [] ==> Fresh(s, cs[0]) ==> CorrectRun(Exec(s, cs[0]), cs[1..]))
  }

  ghost predicate SafeRun(s: Store, cs: seq<Command>)
    decreases |cs|
  {
    cs != [] ==> Fresh(s, cs[0]) ==>
      (Refusal(s, cs[0]).Some? || Safe(s, cs[0])) && SafeRun(Exec(s, cs[0]), cs[1..])
  }

  /** Main result over runs: from a correct tree, all states of a run are correct trees iff
      every command in it is refused or safe when it comes. */
  lemma {:induction false} RunExact(s: Store, cs: seq<Command>)
    requires Tree(s.folders)
    ensures CorrectRun(s, cs) <==> SafeRun(s, cs)
    decreases |cs|
  {
    if cs != [] && Fresh(s, cs[0]) {
      StepExact(s, cs[0]);
      if Tree(Exec(s, cs[0]).folders) { RunExact(Exec(s, cs[0]), cs[1..]); }
    }
  }

  // ------------------------------------------------------------------ which commands go through

  /** No other active folder in this parent has the name. */
  predicate NameFree(rows: Rows, parentId: Option<Id>, name: string, except: Option<Id>) {
    forall g :: g in rows && Active(rows, g) && Some(g) != except && rows[g].parentId == parentId ==> rows[g].name != name
  }

  /** No job is at work on the folder. */
  predicate Idle(objects: map<Id, NasObject>, id: Id) { id in objects ==> objects[id].status != SYNCING }

  /** A create needs a valid free name and an active parent, if one is given; a rename and a
      move need an active folder that no job is at work on, a free name at the new place and a
      path update the database can read; a move needs an active target outside the folder; a
      deletion needs an active folder without active subfolders and files that no job is at
      work on. */
  lemma AcceptedExact(s: Store, c: Command)
    ensures Refusal(s, c).None? <==>
            match c
            case Create(_, name, parentId) =>
              ValidName(name) && NameFree(s.folders, parentId, name, None) && (parentId.Some? ==> Active(s.folders, parentId.value))
            case Rename(id, newName) =>
              && ValidName(newName) && Active(s.folders, id) && Idle(s.objects, id)
              && NameFree(s.folders, s.folders[id].parentId, newName, Some(id))
              && Readable(s.folders, id, RenamedPath(s.folders[id], newName))
            case Move(id, target) =>
              && Active(s.folders, target) && Active(s.folders, id) && Idle(s.objects, id)
              && target != id && !(s.folders[id].path + "/" <= s.folders[target].path)
              && NameFree(s.folders, Some(target), s.folders[id].name, None)
              && Readable(s.folders, id, BuildPath(s.folders[target].path, s.folders[id].name))
            case Delete(id, fileCount) =>
              && Active(s.folders, id) && Idle(s.objects, id) && fileCount == 0
              && forall g :: Active(s.folders, g) ==> s.folders[g].parentId != Some(id)
            case NasDone(_) => true
  {
    hide ValidName, Readable, RenamedPath, BuildPath;
    match c
    case Create(_, name, parentId) => FreeIsUntaken(s.folders, parentId, name, None);
    case Rename(id, newName) => if id in s.folders { FreeIsUntaken(s.folders, s.folders[id].parentId, newName, Some(id)); }
    case Move(id, target) => if id in s.folders { FreeIsUntaken(s.folders, Some(target), s.folders[id].name, None); }
    case Delete(id, fileCount) =>
    case NasDone(_) =>
  }

  /** The defect an error names is there. */
  ghost predicate TrueReason(s: Store, c: Command, e: Error) {
    var id := Subject(c);
    match e
    case INVALID_NAME => (c.Create? && !ValidName(c.name)) || (c.Rename? && !ValidName(c.newName))
    case PARENT_NOT_FOUND => c.Create? && c.parentId.Some? && !Active(s.folders, c.parentId.value)
    case TARGET_NOT_FOUND => c.Move? && !Active(s.folders, c.targetParentId)
    case FOLDER_NOT_FOUND => !c.Create? && id !in s.folders
    case FOLDER_NOT_ACTIVE => !c.Create? && id in s.folders && !Active(s.folders, id) && (c.Delete? ==> s.folders[id].state != TRASHED)
    case ALREADY_TRASHED => c.Delete? && id in s.folders && s.folders[id].state == TRASHED
    case CIRCULAR_MOVE =>
      && c.Move? && id in s.folders && c.targetParentId in s.folders
      && (c.targetParentId == id || s.folders[id].path + "/" <= s.folders[c.targetParentId].path)
    case FOLDER_SYNCING => !c.Create? && !Idle(s.objects, id)
    case NOT_EMPTY => c.Delete? && (c.fileCount > 0 || exists g :: Active(s.folders, g) && s.folders[g].parentId == Some(id))
    case DUPLICATE_EXISTS =>
      || (c.Create? && !NameFree(s.folders, c.parentId, c.name, None))
      || (c.Rename? && id in s.folders && !NameFree(s.folders, s.folders[id].parentId, c.newName, Some(id)))
      || (c.Move? && id in s.folders && !NameFree(s.folders, Some(c.targetParentId), s.folders[id].name, None))
    case QUERY_FAILED =>
      && id in s.folders
      && (c.Rename? || (c.Move? && c.targetParentId in s.folders))
      && !Readable(s.folders, id, if c.Rename? then RenamedPath(s.folders[id], c.newName)
                                  else BuildPath(s.folders[c.targetParentId].path, s.folders[id].name))
  }

  /** A refusal names a defect that is there. */
  lemma RefusedForCause(s: Store, c: Command)
    requires Refusal(s, c).Some?
    ensures TrueReason(s, c, Refusal(s, c).value)
  {
    hide ValidName, Readable, RenamedPath, BuildPath;
    match c
    case Create(_, name, parentId) => FreeIsUntaken(s.folders, parentId, name, None);
    case Rename(id, newName) => if id in s.folders { FreeIsUntaken(s.folders, s.folders[id].parentId, newName, Some(id)); }
    case Move(id, target) => if id in s.folders { FreeIsUntaken(s.folders, Some(target), s.folders[id].name, None); }
    case Delete(id, fileCount) =>
    case NasDone(_) =>
  }

  lemma FreeIsUntaken(rows: Rows, parentId: Option<Id>, name: string, except: Option<Id>)
    ensures NameFree(rows, parentId, name, except) <==> !NameTaken(rows, parentId, name, except)
  {}

  function Subject(c: Command): Id {
    match c
    case Create(newId, _, _) => newId
    case Rename(id, _) => id
    case Move(id, _) => id
    case Delete(id, _) => id
    case NasDone(id) => id
  }

  /** What an accepted command does to the folder rows, paths apart: a create adds an active
      folder, a rename sets the name, a move the parent and a deletion the state of its own
      folder, and nothing else changes. */
  lemma FolderEffect(s: Store, c: Command, g: Id)
    requires Refusal(s, c).None? && Fresh(s, c)
    ensures var rows, rows2, own := s.folders, Exec(s, c).folders, Subject(c) == g;
            && (g in rows2 <==> g in rows || (c.Create? && own))
            && (c.Create? && own ==> rows2[g].name == c.name && rows2[g].parentId == c.parentId && rows2[g].state == ACTIVE)
            && (g in rows ==>
                  && rows2[g].name == (if c.Rename? && own then c.newName else rows[g].name)
                  && rows2[g].parentId == (if c.Move? && own then Some(c.targetParentId) else rows[g].parentId)
                  && rows2[g].state == (if c.Delete? && own then TRASHED else rows[g].state)
                  && (!c.Rename? && !c.Move? ==> rows2[g].path == rows[g].path))
  {
    hide ValidName, NameTaken, Readable, RenamedPath, BuildPath, CircularTest, HasActiveChild, Statement, Like, ReplaceAll;
  }

  // ------------------------------------------------------------------ the storage rows

  /** What an accepted command does to the storage rows: only its own folder's row changes; a
      create adds it, every other command leaves it missing if it is missing; it is SYNCING
      afterwards, AVAILABLE when the worker is done, and keeps its key in a deletion and when
      the worker is done. */
  lemma StorageExact(s: Store, c: Command, g: Id)
    requires Refusal(s, c).None?
    ensures var o, o2, id := s.objects, Exec(s, c).objects, Subject(c);
            && (g != id ==> (g in o2 <==> g in o) && (g in o ==> o2[g] == o[g]))
            && (id in o2 <==> id in o || c.Create?)
            && (id in o2 ==> o2[id].status == if c.NasDone? then AVAILABLE else SYNCING)
            && (id in o2 && (c.Delete? || c.NasDone?) ==> o2[id].objectKey == o[id].objectKey)
  {
    hide ValidName, NameTaken, Readable, RenamedPath, BuildPath, CreateRows, RenameRows, MoveRows, CircularTest, HasActiveChild;
  }

  /** The folder's new path, as a correct tree has it. */
  lemma OwnPath(rows: Rows, r: Id, f: Id, name: string, parentId: Id, newPath: string)
    requires Place(rows, r, f, name, parentId, newPath) && RewriteExact(rows, f, newPath)
    ensures Relocate(rows, f, name, Some(parentId), newPath)[f].path == newPath
  {
    assert RewriteFits(rows, f, newPath, f);
    RowExact(rows, r, f, newPath, f);
    RelocatedRow(rows, f, name, Some(parentId), newPath, f);
    hide Relocate, RewrittenTo, RewriteFits;
  }

  lemma MovedKey(s: Store, r: Id, c: Command)
    requires TreeAt(s.folders, r) && (c.Rename? || c.Move?) && Refusal(s, c).None? && Safe(s, c)
    ensures var s2, id := Exec(s, c), Subject(c);
            id in s2.folders && (id in s2.objects ==> s2.objects[id].objectKey == s2.folders[id].path)
  {
    var id := Subject(c);
    RootByParent(s.folders, r, id);
    assert Placed(s.folders, id);
    if c.Rename? {
      var newPath := RenamedPath(s.folders[id], c.newName);
      RenamedPathIs(s.folders, r, id, c.newName);
      ParentNotBelow(s.folders, r, id);
      OwnPath(s.folders, r, id, c.newName, s.folders[id].parentId.value, newPath);
    } else {
      var newPath := BuildPath(s.folders[c.targetParentId].path, s.folders[id].name);
      OwnPath(s.folders, r, id, s.folders[id].name, c.targetParentId, newPath);
    }
  }

  /** After a safe create, rename or move, the folder's storage key is its path. */
  lemma KeyIsPath(s: Store, c: Command)
    requires Tree(s.folders) && Refusal(s, c).None? && Safe(s, c) && (c.Create? || c.Rename? || c.Move?)
    ensures var s2, id := Exec(s, c), Subject(c);
            id in s2.folders && (id in s2.objects ==> s2.objects[id].objectKey == s2.folders[id].path)
  {
    if !c.Create? {
      var r :| TreeAt(s.folders, r);
      MovedKey(s, r, c);
    }
  }

  function After(s: Store, cs: seq<Command>): Store
    decreases |cs|
  {
    if cs == [] then s else After(Exec(s, cs[0]), cs[1..])
  }

  /** A rename, move or deletion of a folder whose storage row is SYNCING is refused. */
  lemma BusyRefused(s: Store, c: Command)
    requires !Idle(s.objects, Subject(c)) && (c.Rename? || c.Move? || c.Delete?)
    ensures Refusal(s, c).Some?
  {
    hide ValidName, NameTaken, Readable, CircularTest, HasActiveChild;
  }

  lemma KeptFolders(s: Store, c: Command)
    requires Refusal(s, c).None?
    ensures forall g :: g in s.folders ==> g in Exec(s, c).folders
  {
    hide ValidName, NameTaken, Readable, RenamedPath, BuildPath, CircularTest, HasActiveChild, Statement, Like, ReplaceAll;
  }

  /** Over runs: once a folder's storage row is SYNCING, it stays as it is and every rename,
      move and deletion of the folder is refused, until the worker is done with it. */
  lemma {:induction false} BusyUntilDone(s: Store, cs: seq<Command>, id: Id, c: Command)
    requires !Idle(s.objects, id) && id in s.folders
    requires forall i :: 0 <= i < |cs| ==> cs[i] != NasDone(id) && (cs[i].Create? ==> cs[i].newId != id)
    requires (c.Rename? || c.Move? || c.Delete?) && Subject(c) == id
    ensures var s2 := After(s, cs);
            id in s2.objects && s2.objects[id] == s.objects[id] && Refusal(s2, c).Some?
    decreases |cs|
  {
    if cs == [] {
      BusyRefused(s, c);
    } else {
      var c0 := cs[0];
      assert c0 == cs[0];
      if Subject(c0) == id && !c0.Create? && !c0.NasDone? { BusyRefused(s, c0); }
      if Refusal(s, c0).None? {
        StorageExact(s, c0, id);
        KeptFolders(s, c0);
      }
      forall i | 0 <= i < |cs[1..]| ensures cs[1..][i] != NasDone(id) && (cs[1..][i].Create? ==> cs[1..][i].newId != id) {
        assert cs[1..][i] == cs[i + 1];
      }
      hide Refusal, Exec;
      BusyUntilDone(Exec(s, c0), cs[1..], id, c);
    }
  }

  /** The service object. Each method runs the checks and changes folder and storage rows in
      place; only a bulk update that fails has something to roll back. */
  class FolderCommandService {
    var folders: Rows
    var objects: map<Id, NasObject>

    ghost function State(): Store reads this { Store(folders, objects) }

    constructor (rootId: Id)
      ensures TreeAt(folders, rootId) && objects == map[rootId := NasObject("/", AVAILABLE)]
    {
      folders := map[rootId := Folder("", None, "/", ACTIVE)];
      objects := map[rootId := NasObject("/", AVAILABLE)];
    }

    method CreateFolder(newId: Id, name: string, parentId: Option<Id>) returns (r: Result<string, Error>)
      modifies this
      ensures State() == Exec(old(State()), Create(newId, name, parentId))
      ensures r.Err? ==> Refusal(old(State()), Create(newId, name, parentId)) == Some(r.error)
      ensures r.Ok? ==> Refusal(old(State()), Create(newId, name, parentId)) == None && r.value == folders[newId].path
    {
      if !ValidName(name) { return Err(INVALID_NAME); }
      var parentPath := "";
      if parentId.Some? {
        if !Active(folders, parentId.value) { return Err(PARENT_NOT_FOUND); }
        parentPath := folders[parentId.value].path;
      }
      if NameTaken(folders, parentId, name, None) { return Err(DUPLICATE_EXISTS); }
      var folderPath := BuildPath(parentPath, name);
      folders := folders[newId := Folder(name, parentId, folderPath, ACTIVE)];
      objects := objects[newId := NasObject(folderPath, SYNCING)];
      return Ok(folderPath);
    }

    method UpdateObject(id: Id, objectKey: string)
      modifies this`objects
      ensures objects == Rekeyed(old(objects), id, objectKey)
    {
      if id in objects { objects := objects[id := NasObject(objectKey, SYNCING)]; }
    }

    method RenameFolder(id: Id, newName: string) returns (r: Result<string, Error>)
      modifies this
      ensures State() == Exec(old(State()), Rename(id, newName))
      ensures r.Err? ==> Refusal(old(State()), Rename(id, newName)) == Some(r.error)
      ensures r.Ok? ==> Refusal(old(State()), Rename(id, newName)) == None
                        && r.value == RenamedPath(old(folders)[id], newName)
    {
      if !ValidName(newName) { return Err(INVALID_NAME); }
      if id !in folders { return Err(FOLDER_NOT_FOUND); }
      var folder := folders[id];
      if folder.state != ACTIVE { return Err(FOLDER_NOT_ACTIVE); }
      if id in objects && objects[id].status == SYNCING { return Err(FOLDER_SYNCING); }
      if NameTaken(folders, folder.parentId, newName, Some(id)) { return Err(DUPLICATE_EXISTS); }
      var oldPath := folder.path;
      var newPath := RenamedPath(folder, newName);
      var before := folders;
      folders := folders[id := Folder(newName, folder.parentId, newPath, folder.state)];
      if Statement(oldPath, newPath).None? {
        folders := before;
        return Err(QUERY_FAILED);
      }
      folders := UpdatePathByPrefix(folders, oldPath, newPath);
      UpdateObject(id, newPath);
      return Ok(newPath);
    }

    method MoveFolder(id: Id, targetParentId: Id) returns (r: Result<string, Error>)
      modifies this
      ensures State() == Exec(old(State()), Move(id, targetParentId))
      ensures r.Err? ==> Refusal(old(State()), Move(id, targetParentId)) == Some(r.error)
      ensures r.Ok? ==> Refusal(old(State()), Move(id, targetParentId)) == None
                        && r.value == BuildPath(old(folders)[targetParentId].path, old(folders)[id].name)
    {
      if !Active(folders, targetParentId) { return Err(TARGET_NOT_FOUND); }
      var targetParent := folders[targetParentId];
      if id !in folders { return Err(FOLDER_NOT_FOUND); }
      var folder := folders[id];
      if folder.state != ACTIVE { return Err(FOLDER_NOT_ACTIVE); }
      if folder.path + "/" <= targetParent.path || targetParentId == id { return Err(CIRCULAR_MOVE); }
      if id in objects && objects[id].status == SYNCING { return Err(FOLDER_SYNCING); }
      if NameTaken(folders, Some(targetParentId), folder.name, None) { return Err(DUPLICATE_EXISTS); }
      var oldPath := folder.path;
      var newPath := BuildPath(targetParent.path, folder.name);
      var before := folders;
      folders := folders[id := folder.(parentId := Some(targetParentId), path := newPath)];
      if Statement(oldPath, newPath).None? {
        folders := before;
        return Err(QUERY_FAILED);
      }
      folders := UpdatePathByPrefix(folders, oldPath, newPath);
      UpdateObject(id, newPath);
      return Ok(newPath);
    }

    method DeleteFolder(id: Id, fileCount: nat) returns (r: Result<string, Error>)
      modifies this
      ensures State() == Exec(old(State()), Delete(id, fileCount))
      ensures r.Err? ==> Refusal(old(State()), Delete(id, fileCount)) == Some(r.error)
      ensures r.Ok? ==> Refusal(old(State()), Delete(id, fileCount)) == None && r.value == old(folders)[id].path
    {
      if id !in folders { return Err(FOLDER_NOT_FOUND); }
      var folder := folders[id];
      if folder.state == TRASHED { return Err(ALREADY_TRASHED); }
      if folder.state != ACTIVE { return Err(FOLDER_NOT_ACTIVE); }
      if HasActiveChild(folders, id) || fileCount > 0 { return Err(NOT_EMPTY); }
      if id in objects && objects[id].status == SYNCING { return Err(FOLDER_SYNCING); }
      folders := folders[id := folder.(state := TRASHED)];
      if id in objects { objects := objects[id := objects[id].(status := SYNCING)]; }
      return Ok(folder.path);
    }
  }
}
