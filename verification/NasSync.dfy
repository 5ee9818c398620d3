/** The two-step protocol between the database and the NAS. The service checks a request,
    marks the record SYNCING and queues a job; the worker moves the file on the NAS and then
    saves the record, and may die before, in the middle, between or after and be run again. A
    move whose target folder has gone is taken back instead. */
module NasSync {
  import opened Wrappers
  import opened JsStrings
  import opened NasNaming

  type FileId = nat
  type Key = string

  // ------------------------------------------------------------------ the records

  datatype FileState = ACTIVE | TRASHED | DELETED

  /** The catalogue's half of a file; two files of one second may differ in createdAt. */
  datatype Doc = Doc(folder: string, name: string, mimeType: string, createdAt: int, state: FileState)

  datatype Status = AVAILABLE | SYNCING

  datatype Job =
    | RenameJob(oldObjectKey: Key, newObjectKey: Key)
    | MoveJob(sourcePath: Key, targetPath: Key, originalFolder: string, targetFolder: string)
    | TrashJob(currentObjectKey: Key, trashPath: Key)

  function Src(j: Job): Key {
    match j case RenameJob(o, _) => o case MoveJob(s, _, _, _) => s case TrashJob(c, _) => c
  }

  /** Where the handler moves the file and what it finally records. */
  function Dst(j: Job): Key {
    match j case RenameJob(o, n) => RenameTarget(o, n) case MoveJob(_, t, _, _) => t case TrashJob(_, t) => t
  }

  /** The key by which the handler recognises a job that is already done. */
  function GuardKey(j: Job): Key {
    match j case RenameJob(_, n) => n case MoveJob(_, t, _, _) => t case TrashJob(_, t) => t
  }

  /** The catalogue entry, the NAS record and the job that is still to be delivered. */
  datatype Rec = Rec(doc: Doc, objectKey: Key, status: Status, leaseCount: nat, job: Option<Job>)

  /** nas maps each existing key to the file whose bytes it holds; gone are the folders that
      have been put in the trash. */
  datatype State = State(files: map<FileId, Rec>, nas: map<Key, FileId>, gone: set<string>)

  // ------------------------------------------------------------------ the service

  datatype Folder = Folder(id: string, path: string)

  /** A move carries what the lookup of its target folder found before the transaction: an
      active folder, or none. */
  datatype Request = Rename(newName: string) | Move(folder: Option<Folder>) | Delete(trashId: string)

  datatype Error =
    | TARGET_FOLDER_NOT_FOUND
    | FILE_NOT_FOUND
    | FILE_ALREADY_TRASHED
    | FILE_NOT_ACTIVE
    | INVALID_FILE_NAME
    | FILE_EXTENSION_CHANGE_NOT_ALLOWED
    | FILE_SYNCING
    | DUPLICATE_FILE_EXISTS
    | FILE_IN_USE

  function LowerCase(s: string): string {
    seq(|s|, i requires 0 <= i < |s| => if 'A' <= s[i] <= 'Z' then s[i] - 'A' + 'a' else s[i])
  }

  function FileExtension(name: string): string {
    var i := LastIndexOf(name, '.');
    if i <= 0 || i == |name| - 1 then "" else name[i + 1..]
  }

  function NameRefusal(oldName: string, newName: string): Option<Error> {
    if newName == "" then Some(INVALID_FILE_NAME)
    else if LowerCase(FileExtension(oldName)) != LowerCase(FileExtension(newName)) then Some(FILE_EXTENSION_CHANGE_NOT_ALLOWED)
    else None
  }

  /** existsByNameInFolder: an active file with this folder, name, type and creation time. */
  predicate Duplicate(s: State, doc: Doc, exclude: Option<FileId>) {
    exists g :: g in s.files && exclude != Some(g) && s.files[g].doc == doc.(state := ACTIVE)
  }

  predicate Known(q: Request) { q.Move? ==> q.folder.Some? }

  /** The catalogue entry the request asks for. */
  function Catalogued(doc: Doc, q: Request): Doc
    requires Known(q)
  {
    match q
    case Rename(newName) => doc.(name := Trim(newName))
    case Move(folder) => doc.(folder := folder.value.id)
    case Delete(_) => doc.(state := TRASHED)
  }

  /** The checks of rename, move and delete, in their order. */
  function Refusal(s: State, f: FileId, q: Request): (r: Option<Error>)
    ensures r.None? ==> Known(q) && f in s.files && s.files[f].status == AVAILABLE && s.files[f].doc.state == ACTIVE
  {
    if !Known(q) then Some(TARGET_FOLDER_NOT_FOUND)
    else if f !in s.files then Some(FILE_NOT_FOUND)
    else
      var rec := s.files[f];
      assert rec.status.AVAILABLE? || rec.status.SYNCING?;
      if q.Delete? && rec.doc.state == TRASHED then Some(FILE_ALREADY_TRASHED)
      else if rec.doc.state != ACTIVE then Some(FILE_NOT_ACTIVE)
      else if q.Rename? && NameRefusal(rec.doc.name, Trim(q.newName)).Some? then NameRefusal(rec.doc.name, Trim(q.newName))
      else if rec.status == SYNCING then Some(FILE_SYNCING)
      else if q.Rename? && Duplicate(s, Catalogued(rec.doc, q), Some(f)) then Some(DUPLICATE_FILE_EXISTS)
      else if q.Move? && Duplicate(s, Catalogued(rec.doc, q), None) then Some(DUPLICATE_FILE_EXISTS)
      else if q.Delete? && rec.leaseCount > 0 then Some(FILE_IN_USE)
      else None
  }

  function JobFor(rec: Rec, q: Request): Job
    requires Known(q)
  {
    var key := rec.objectKey;
    match q
    case Rename(newName) => RenameJob(key, ServiceRenameKey(key, Trim(newName)))
    case Move(folder) => MoveJob(key, MoveTarget(folder.value.path, key), rec.doc.folder, folder.value.id)
    case Delete(trashId) => TrashJob(key, TrashPath(trashId, key))
  }

  /** A rename records the service's key at once; the others keep the old key until saved. */
  function Marked(rec: Rec, q: Request): Rec
    requires Known(q)
  {
    var j := JobFor(rec, q);
    Rec(Catalogued(rec.doc, q), if q.Rename? then GuardKey(j) else rec.objectKey, SYNCING, rec.leaseCount, Some(j))
  }

  function Put(s: State, f: FileId, rec: Rec): State { s.(files := s.files[f := rec]) }

  function Enqueue(s: State, f: FileId, q: Request): State {
    if Refusal(s, f, q).Some? then s else Put(s, f, Marked(s.files[f], q))
  }

  // ------------------------------------------------------------------ the NAS port

  /** How a port reports a missing source: with the code ENOENT, which the handlers expect
      and swallow, or as the NFS adapter does, with an exception that carries no code. The
      NFS adapter also locks source and target, so equal keys wait for themselves until the
      lock times out. */
  datatype Port = WithErrno | NfsAdapter

  datatype Outcome = Moved | AlreadyDone | Failed

  function Attempt(nas: map<Key, FileId>, src: Key, dst: Key, port: Port): Outcome {
    if port == NfsAdapter && src == dst then Failed
    else if src in nas then Moved
    else if port == WithErrno then AlreadyDone
    else Failed
  }

  /** A rename on the NAS replaces whatever stood at the target. */
  function Shift(nas: map<Key, FileId>, src: Key, dst: Key): map<Key, FileId>
    requires src in nas
  {
    if src == dst then nas else (nas - {src})[dst := nas[src]]
  }

  // ------------------------------------------------------------------ the worker

  /** How far one run of the job gets. Between devices the NAS move is a copy and a deletion,
      and the run can die between the two. Only a complete run is acknowledged; any other is
      delivered again. */
  datatype RunMode = CrashBefore | CrashInCopy | CrashBetween | CrashAfter | Complete

  /** The handler takes the job for done. */
  predicate Guarded(rec: Rec) {
    rec.job.Some? && rec.status == AVAILABLE && rec.objectKey == GuardKey(rec.job.value)
  }

  predicate Postponed(rec: Rec) {
    rec.job.Some? && rec.job.value.TrashJob? && rec.leaseCount > 0
  }

  function Acknowledged(rec: Rec): Rec { rec.(job := None) }

  function Saved(rec: Rec): Rec
    requires rec.job.Some?
  {
    rec.(objectKey := Dst(rec.job.value), status := AVAILABLE)
  }

  /** The move's target folder is in the trash. */
  predicate Gone(gone: set<string>, j: Job) {
    j.MoveJob? && j.targetFolder in gone
  }

  /** Taking a move back: the catalogue entry first, then the record, which keeps its key. */
  function Reverted(rec: Rec, mode: RunMode): Rec
    requires rec.job.Some? && rec.job.value.MoveJob?
  {
    if rec.doc.state != ACTIVE || mode == CrashBefore || mode == CrashInCopy then rec else
    var back := rec.(doc := rec.doc.(folder := rec.job.value.originalFolder));
    if mode == CrashBetween then back
    else if mode == CrashAfter then back.(status := AVAILABLE)
    else Acknowledged(back.(status := AVAILABLE))
  }

  /** What a run does once the port has answered. */
  function Carry(s: State, f: FileId, mode: RunMode, outcome: Outcome): State
    requires f in s.files && s.files[f].job.Some? && (outcome == Moved ==> Src(s.files[f].job.value) in s.nas)
  {
    var rec := s.files[f];
    var src, dst := Src(rec.job.value), Dst(rec.job.value);
    if outcome == Failed || mode == CrashBefore then s
    else if mode == CrashInCopy then (if outcome == Moved then s.(nas := s.nas[dst := s.nas[src]]) else s) else
    var s2 := if outcome == Moved then s.(nas := Shift(s.nas, src, dst)) else s;
    if mode == CrashBetween then s2
    else if mode == CrashAfter then Put(s2, f, Saved(rec))
    else Put(s2, f, Acknowledged(Saved(rec)))
  }

  function Work(s: State, f: FileId, mode: RunMode, port: Port): State {
    if f !in s.files || s.files[f].job.None? || mode == CrashBefore then s else
    var rec := s.files[f];
    if Guarded(rec) then (if mode == Complete then Put(s, f, Acknowledged(rec)) else s)
    else if Gone(s.gone, rec.job.value) then Put(s, f, Reverted(rec, mode))
    else if Postponed(rec) then s
    else Carry(s, f, mode, Attempt(s.nas, Src(rec.job.value), Dst(rec.job.value), port))
  }

  datatype Step =
    | Ask(f: FileId, q: Request)
    | Run(f: FileId, mode: RunMode, port: Port)
    | AcquireLease(f: FileId)
    | ReleaseLease(f: FileId)
    | FolderTrashed(folder: string)

  /** The deletion of a folder is refused while an active file is in it. */
  predicate Empty(s: State, folder: string) {
    forall f :: f in s.files && s.files[f].doc.state == ACTIVE ==> s.files[f].doc.folder != folder
  }

  function Next(s: State, step: Step): State {
    match step
    case Ask(f, q) => Enqueue(s, f, q)
    case Run(f, mode, port) => Work(s, f, mode, port)
    case AcquireLease(f) =>
      if f in s.files && s.files[f].status == AVAILABLE
      then Put(s, f, s.files[f].(leaseCount := s.files[f].leaseCount + 1)) else s
    case ReleaseLease(f) =>
      if f in s.files && s.files[f].leaseCount > 0
      then Put(s, f, s.files[f].(leaseCount := s.files[f].leaseCount - 1)) else s
    case FolderTrashed(folder) => if Empty(s, folder) then s.(gone := s.gone + {folder}) else s
  }

  // ------------------------------------------------------------------ safety

  predicate Holds(nas: map<Key, FileId>, f: FileId, k: Key) { k in nas && nas[k] == f }

  /** The file's bytes are at k and nowhere else. */
  ghost predicate OnlyAt(nas: map<Key, FileId>, f: FileId, k: Key) {
    forall l :: Holds(nas, f, l) <==> l == k
  }

  /** The file's bytes are at some of the keys, and nowhere else. */
  ghost predicate Spread(nas: map<Key, FileId>, f: FileId, keys: set<Key>) {
    && (exists k :: Holds(nas, f, k))
    && (forall k :: Holds(nas, f, k) ==> k in keys)
  }

  ghost predicate SameFor(nas: map<Key, FileId>, nas2: map<Key, FileId>, g: FileId) {
    forall k :: Holds(nas2, g, k) <==> Holds(nas, g, k)
  }

  /** Every file's bytes exist, and those of an available file are at its key only. */
  ghost predicate Sound(s: State) {
    && (forall f :: f in s.files && s.files[f].status == AVAILABLE ==> OnlyAt(s.nas, f, s.files[f].objectKey))
    && (forall f :: f in s.files ==> exists k :: Holds(s.nas, f, k))
  }

  /** The keys a file may occupy or whose content a run of its job may move: both ends of
      the job, unless the next run will take it for done or take it back. */
  function Claimed(gone: set<string>, rec: Rec): set<Key> {
    if rec.job.Some? && !Guarded(rec) && !Gone(gone, rec.job.value) then {Src(rec.job.value), Dst(rec.job.value)} else {rec.objectKey}
  }

  /** An available file is at its key, where its last job ended or was taken back. */
  ghost predicate Resting(s: State, f: FileId)
    requires f in s.files
  {
    var rec := s.files[f];
    && OnlyAt(s.nas, f, rec.objectKey)
    && (rec.job.Some? ==> rec.objectKey == Dst(rec.job.value) || (Gone(s.gone, rec.job.value) && rec.objectKey == Src(rec.job.value)))
  }

  /** A file that is on its way is at an end of its job, which may run, and is counted in the
      folder it is moving to. */
  ghost predicate Moving(s: State, f: FileId)
    requires f in s.files
  {
    var rec := s.files[f];
    && rec.job.Some? && !Postponed(rec) && Spread(s.nas, f, Claimed(s.gone, rec))
    && (rec.job.value.MoveJob? ==>
          && rec.objectKey == Src(rec.job.value) && rec.doc.state == ACTIVE
          && (rec.job.value.targetFolder !in s.gone ==> rec.doc.folder == rec.job.value.targetFolder))
  }

  ghost predicate Located(s: State, f: FileId)
    requires f in s.files
  {
    if s.files[f].status == AVAILABLE then Resting(s, f) else Moving(s, f)
  }

  ghost predicate Disjoint(s: State, f: FileId, g: FileId)
    requires f in s.files && g in s.files
  {
    f != g ==> Claimed(s.gone, s.files[f]) !! Claimed(s.gone, s.files[g])
  }

  ghost predicate Inv(s: State) {
    && (forall k :: k in s.nas ==> s.nas[k] in s.files)
    && (forall f :: f in s.files ==> Located(s, f))
    && (forall f, g {:trigger Disjoint(s, f, g)} :: f in s.files && g in s.files ==> Disjoint(s, f, g))
  }

  /** No other file claims a key that f would claim with this record. */
  ghost predicate FreeFor(s: State, f: FileId, rec: Rec) {
    forall g :: g in s.files && g != f ==> Claimed(s.gone, s.files[g]) !! Claimed(s.gone, rec)
  }

  /** No other file claims the key where the request ends. */
  ghost predicate Free(s: State, f: FileId, q: Request)
    requires f in s.files && Known(q)
  {
    FreeFor(s, f, Marked(s.files[f], q))
  }

  /** Where a file is. */
  lemma Place(s: State, f: FileId)
    requires Inv(s) && f in s.files
    ensures Spread(s.nas, f, Claimed(s.gone, s.files[f]))
    ensures s.files[f].status == AVAILABLE ==> OnlyAt(s.nas, f, s.files[f].objectKey) && s.files[f].objectKey in Claimed(s.gone, s.files[f])
  {
    hide RenameTarget;
    assert Located(s, f);
    if s.files[f].status == AVAILABLE { assert Holds(s.nas, f, s.files[f].objectKey); }
  }

  lemma InvSound(s: State)
    requires Inv(s)
    ensures Sound(s)
  {
    hide Inv, Claimed;
    forall f | f in s.files
      ensures exists k :: Holds(s.nas, f, k)
      ensures s.files[f].status == AVAILABLE ==> OnlyAt(s.nas, f, s.files[f].objectKey)
    {
      Place(s, f);
    }
  }

  lemma OwnKeys(s: State, f: FileId)
    requires Inv(s) && f in s.files
    ensures FreeFor(s, f, s.files[f])
  {
    forall g | g in s.files && g != f ensures Claimed(s.gone, s.files[g]) !! Claimed(s.gone, s.files[f]) { assert Disjoint(s, g, f); }
  }

  /** Bytes stand only at keys their own file claims. */
  lemma Owner(s: State, f: FileId, k: Key)
    requires Inv(s) && f in s.files && k in s.nas && k in Claimed(s.gone, s.files[f])
    ensures s.nas[k] == f
  {
    var g := s.nas[k];
    Place(s, g);
    assert Holds(s.nas, g, k);
    OwnKeys(s, f);
  }

  lemma SameSpread(nas: map<Key, FileId>, nas2: map<Key, FileId>, g: FileId, keys: set<Key>)
    requires SameFor(nas, nas2, g)
    ensures Spread(nas, g, keys) ==> Spread(nas2, g, keys)
  {
    if Spread(nas, g, keys) {
      var k :| Holds(nas, g, k);
      assert Holds(nas2, g, k);
    }
  }

  lemma SameLocated(s: State, s2: State, g: FileId)
    requires g in s.files && g in s2.files && s2.files[g] == s.files[g] && s2.gone == s.gone
    requires Located(s, g) && SameFor(s.nas, s2.nas, g)
    ensures Located(s2, g)
  {
    hide Claimed, Postponed, Dst, Src;
    SameSpread(s.nas, s2.nas, g, Claimed(s.gone, s.files[g]));
  }

  /** Only file f changes, it stays within these keys, and the others stay where they are. */
  lemma Reframe(s: State, s2: State, f: FileId, rec: Rec)
    requires Inv(s) && f in s.files && s2.files.Keys == s.files.Keys && s2.gone == s.gone
    requires forall g :: g in s.files && g != f ==> s2.files[g] == s.files[g]
    requires Located(s2, f) && Claimed(s.gone, s2.files[f]) <= Claimed(s.gone, rec) && FreeFor(s, f, rec)
    requires forall k :: k in s2.nas ==> s2.nas[k] in s.files
    requires forall g :: g in s.files && g != f ==> SameFor(s.nas, s2.nas, g)
    ensures Inv(s2)
  {
    hide Claimed, Resting, Moving;
    forall g | g in s2.files ensures Located(s2, g) {
      if g != f {
        assert Located(s, g);
        SameLocated(s, s2, g);
      }
    }
    forall g, h | g in s2.files && h in s2.files ensures Disjoint(s2, g, h) { assert Disjoint(s, g, h); }
  }

  /** The key where the job of an accepted request ends. */
  function Target(s: State, f: FileId, q: Request): Key
    requires f in s.files && Known(q)
  {
    Dst(JobFor(s.files[f], q))
  }

  /** What an accepted request makes of the record. */
  predicate Assigned(rec: Rec, rec2: Rec) {
    && rec.status == AVAILABLE && rec2.status == SYNCING && rec2.job.Some? && !Postponed(rec2)
    && Src(rec2.job.value) == rec.objectKey
    && (rec2.job.value.MoveJob? ==>
          rec2.objectKey == rec.objectKey && rec2.doc.folder == rec2.job.value.targetFolder && rec2.doc.state == ACTIVE)
  }

  lemma AcceptedAssigns(s: State, f: FileId, q: Request)
    requires Refusal(s, f, q).None?
    ensures Enqueue(s, f, q) == Put(s, f, Marked(s.files[f], q)) && Assigned(s.files[f], Marked(s.files[f], q))
    ensures Dst(Marked(s.files[f], q).job.value) == Target(s, f, q)
  {
    hide RenameTarget, MoveTarget, TrashPath, ServiceRenameKey, Duplicate, NameRefusal, Trim;
  }

  lemma AssignKeeps(s: State, f: FileId, rec2: Rec)
    requires Inv(s) && f in s.files && Assigned(s.files[f], rec2) && FreeFor(s, f, rec2)
    ensures Inv(Put(s, f, rec2))
  {
    hide RenameTarget, Inv, Dst;
    var s2, k := Put(s, f, rec2), s.files[f].objectKey;
    NasFiles(s);
    Place(s, f);
    assert Holds(s.nas, f, k);
    assert k in Claimed(s.gone, rec2);
    assert Spread(s2.nas, f, Claimed(s.gone, rec2));
    assert Located(s2, f);
    Reframe(s, s2, f, rec2);
  }

  lemma EnqueueKeeps(s: State, f: FileId, q: Request)
    requires Inv(s)
    requires Refusal(s, f, q).None? ==> Free(s, f, q)
    ensures Inv(Enqueue(s, f, q))
  {
    hide Refusal, Marked, Target, Inv, Assigned, FreeFor;
    if Refusal(s, f, q).None? {
      AcceptedAssigns(s, f, q);
      AssignKeeps(s, f, Marked(s.files[f], q));
    }
  }

  /** Moving or copying a file onto a key that no other file occupies. */
  lemma ShiftAt(nas: map<Key, FileId>, src: Key, dst: Key, f: FileId)
    requires Holds(nas, f, src) && (dst in nas ==> nas[dst] == f) && Spread(nas, f, {src, dst})
    ensures OnlyAt(Shift(nas, src, dst), f, dst) && Spread(nas[dst := f], f, {src, dst})
    ensures forall g :: g != f ==> SameFor(nas, Shift(nas, src, dst), g) && SameFor(nas, nas[dst := f], g)
  {
    var nas2, nas3 := Shift(nas, src, dst), nas[dst := f];
    forall l ensures Holds(nas2, f, l) <==> l == dst { assert Holds(nas, f, l) ==> l in {src, dst}; }
    forall l | Holds(nas3, f, l) ensures l in {src, dst} { assert l != dst ==> Holds(nas, f, l); }
    assert Holds(nas3, f, dst);
    forall g | g != f ensures SameFor(nas, nas2, g) && SameFor(nas, nas3, g) {
      forall k ensures Holds(nas2, g, k) <==> Holds(nas, g, k) {}
      forall k ensures Holds(nas3, g, k) <==> Holds(nas, g, k) {}
    }
  }

  lemma OnlyTarget(nas: map<Key, FileId>, src: Key, dst: Key, f: FileId)
    requires Spread(nas, f, {src, dst}) && src !in nas
    ensures OnlyAt(nas, f, dst)
  {
    var k :| Holds(nas, f, k);
    assert k == dst;
    forall l ensures Holds(nas, f, l) <==> l == dst {}
  }

  /** A job that moves: it is neither done, nor taken back, nor put off. */
  predicate Runs(s: State, f: FileId) {
    f in s.files && s.files[f].job.Some? && !Guarded(s.files[f]) && !Gone(s.gone, s.files[f].job.value)
  }

  /** A run that gets as far as the NAS puts this file's bytes at its target, or at both ends
      in the middle of a copy, and leaves every other file where it was. */
  lemma MoveKeeps(s: State, f: FileId, port: Port)
    requires Inv(s) && Runs(s, f)
    requires Attempt(s.nas, Src(s.files[f].job.value), Dst(s.files[f].job.value), port) != Failed
    ensures var src, dst := Src(s.files[f].job.value), Dst(s.files[f].job.value);
            var nas2 := if src in s.nas then Shift(s.nas, src, dst) else s.nas;
            && OnlyAt(nas2, f, dst)
            && (forall g :: g in s.files && g != f ==> SameFor(s.nas, nas2, g))
            && (src in s.nas ==> s.nas[src] == f && Spread(s.nas[dst := f], f, {src, dst})
                                 && forall g :: g in s.files && g != f ==> SameFor(s.nas, s.nas[dst := f], g))
  {
    hide RenameTarget, Inv, Shift;
    var src, dst := Src(s.files[f].job.value), Dst(s.files[f].job.value);
    Place(s, f);
    if dst in s.nas { Owner(s, f, dst); }
    if src in s.nas {
      Owner(s, f, src);
      ShiftAt(s.nas, src, dst, f);
    } else {
      OnlyTarget(s.nas, src, dst, f);
    }
  }

  /** A finished job may be acknowledged. */
  lemma AcknowledgeKeeps(s: State, f: FileId)
    requires Inv(s) && f in s.files && s.files[f].status == AVAILABLE
    ensures Inv(Put(s, f, Acknowledged(s.files[f])))
  {
    hide RenameTarget, Inv;
    var s2 := Put(s, f, Acknowledged(s.files[f]));
    OwnKeys(s, f);
    NasFiles(s);
    Place(s, f);
    assert Located(s2, f);
    Reframe(s, s2, f, s.files[f]);
  }

  lemma InvLocated(s: State, f: FileId)
    requires Inv(s) && f in s.files
    ensures Located(s, f)
  {}

  lemma NasFiles(s: State)
    requires Inv(s)
    ensures forall k :: k in s.nas ==> s.nas[k] in s.files
  {}

  /** After the move, with the record saved or not. */
  lemma MovedKeeps(s: State, s2: State, f: FileId, port: Port)
    requires Inv(s) && Runs(s, f) && s2.gone == s.gone
    requires Attempt(s.nas, Src(s.files[f].job.value), Dst(s.files[f].job.value), port) != Failed
    requires s2.nas == if Src(s.files[f].job.value) in s.nas then Shift(s.nas, Src(s.files[f].job.value), Dst(s.files[f].job.value)) else s.nas
    requires s2.files == s.files || s2.files == s.files[f := Saved(s.files[f])]
    ensures Inv(s2)
  {
    OwnKeys(s, f);
    NasFiles(s);
    assert Located(s, f);
    MoveKeeps(s, f, port);
    hide RenameTarget, Attempt, Inv;
    var dst := Dst(s.files[f].job.value);
    assert Holds(s2.nas, f, dst);
    assert Spread(s2.nas, f, Claimed(s.gone, s.files[f]));
    assert Located(s2, f);
    Reframe(s, s2, f, s.files[f]);
  }

  /** In the middle of a copy. */
  lemma CopyKeeps(s: State, f: FileId, port: Port)
    requires Inv(s) && Runs(s, f) && Src(s.files[f].job.value) in s.nas
    requires Attempt(s.nas, Src(s.files[f].job.value), Dst(s.files[f].job.value), port) == Moved
    ensures Inv(s.(nas := s.nas[Dst(s.files[f].job.value) := s.nas[Src(s.files[f].job.value)]]))
  {
    OwnKeys(s, f);
    NasFiles(s);
    assert Located(s, f);
    Place(s, f);
    MoveKeeps(s, f, port);
    hide RenameTarget, Attempt, Inv, Shift;
    var src, dst := Src(s.files[f].job.value), Dst(s.files[f].job.value);
    var s2 := s.(nas := s.nas[dst := f]);
    if s.files[f].status == AVAILABLE {
      assert Holds(s.nas, f, src);
      assert s2.nas == s.nas;
    }
    assert Located(s2, f);
    Reframe(s, s2, f, s.files[f]);
  }

  /** Taking a move back, as far as the run gets. */
  lemma RevertKeeps(s: State, f: FileId, mode: RunMode)
    requires Inv(s) && f in s.files && s.files[f].job.Some? && !Guarded(s.files[f]) && Gone(s.gone, s.files[f].job.value)
    ensures Inv(Put(s, f, Reverted(s.files[f], mode)))
  {
    hide RenameTarget, Inv;
    var s2 := Put(s, f, Reverted(s.files[f], mode));
    OwnKeys(s, f);
    NasFiles(s);
    Place(s, f);
    InvLocated(s, f);
    OnlyKey(s.nas, f, s.files[f].objectKey);
    assert Located(s2, f);
    Reframe(s, s2, f, s.files[f]);
  }

  lemma OnlyKey(nas: map<Key, FileId>, f: FileId, k: Key)
    requires Spread(nas, f, {k})
    ensures OnlyAt(nas, f, k)
  {
    var l :| Holds(nas, f, l);
    forall l ensures Holds(nas, f, l) <==> l == k {}
  }

  lemma WorkKeeps(s: State, f: FileId, mode: RunMode, port: Port)
    requires Inv(s)
    ensures Inv(Work(s, f, mode, port))
  {
    var s2 := Work(s, f, mode, port);
    hide RenameTarget, Inv, Shift, Src, Dst;
    if s2 != s {
      var rec := s.files[f];
      if Guarded(rec) {
        AcknowledgeKeeps(s, f);
      } else if Gone(s.gone, rec.job.value) {
        RevertKeeps(s, f, mode);
      } else if mode == CrashInCopy {
        CopyKeeps(s, f, port);
      } else {
        var moved := State(if mode == CrashBetween then s.files else s.files[f := Saved(rec)],
                           if Src(rec.job.value) in s.nas then Shift(s.nas, Src(rec.job.value), Dst(rec.job.value)) else s.nas, s.gone);
        MovedKeeps(s, moved, f, port);
        if mode == Complete {
          AcknowledgeKeeps(moved, f);
          assert s2.files == moved.files[f := Acknowledged(Saved(rec))];
        }
      }
    }
  }

  lemma LeaseTo(s: State, f: FileId, n: nat)
    requires Inv(s) && f in s.files && (s.files[f].status == AVAILABLE || n <= s.files[f].leaseCount)
    ensures Inv(Put(s, f, s.files[f].(leaseCount := n)))
  {
    hide RenameTarget, Inv;
    var s2 := Put(s, f, s.files[f].(leaseCount := n));
    OwnKeys(s, f);
    NasFiles(s);
    Place(s, f);
    InvLocated(s, f);
    assert Claimed(s.gone, s2.files[f]) == Claimed(s.gone, s.files[f]);
    assert Located(s2, f);
    Reframe(s, s2, f, s.files[f]);
  }

  lemma LeaseKeeps(s: State, f: FileId)
    requires Inv(s)
    ensures Inv(Next(s, AcquireLease(f))) && Inv(Next(s, ReleaseLease(f)))
  {
    hide Inv;
    if f in s.files {
      if s.files[f].status == AVAILABLE { LeaseTo(s, f, s.files[f].leaseCount + 1); }
      if s.files[f].leaseCount > 0 { LeaseTo(s, f, s.files[f].leaseCount - 1); }
    }
  }

  /** No file is on its way into a folder that can be trashed, so no job changes its course. */
  lemma TrashedClaims(s: State, folder: string, f: FileId)
    requires Inv(s) && Empty(s, folder) && f in s.files
    ensures var s2 := s.(gone := s.gone + {folder});
            Claimed(s2.gone, s.files[f]) == Claimed(s.gone, s.files[f]) && Located(s2, f)
  {
    hide RenameTarget;
    var s2, rec := s.(gone := s.gone + {folder}), s.files[f];
    assert Located(s, f);
    if rec.job.Some? && rec.job.value.MoveJob? && rec.job.value.targetFolder == folder && folder !in s.gone {
      assert Guarded(rec);
    }
    assert Claimed(s2.gone, rec) == Claimed(s.gone, rec);
  }

  lemma TrashedKeeps(s: State, folder: string)
    requires Inv(s)
    ensures Inv(Next(s, FolderTrashed(folder)))
  {
    hide Claimed, Located;
    if Empty(s, folder) {
      var s2 := s.(gone := s.gone + {folder});
      forall f | f in s.files
        ensures Claimed(s2.gone, s.files[f]) == Claimed(s.gone, s.files[f]) && Located(s2, f)
      { TrashedClaims(s, folder, f); }
      forall g, h | g in s2.files && h in s2.files ensures Disjoint(s2, g, h) { assert Disjoint(s, g, h); }
    }
  }

  /** Requests in a run only go to free keys. */
  ghost predicate Careful(s: State, step: Step) {
    step.Ask? && Refusal(s, step.f, step.q).None? ==> Free(s, step.f, step.q)
  }

  function After(s: State, steps: seq<Step>): State
    decreases |steps|
  {
    if steps == [] then s else After(Next(s, steps[0]), steps[1..])
  }

  ghost predicate CarefulRun(s: State, steps: seq<Step>)
    decreases |steps|
  {
    steps != [] ==> Careful(s, steps[0]) && CarefulRun(Next(s, steps[0]), steps[1..])
  }

  /** Main result 1: over every interleaving of requests, leases, folder deletions and worker
      runs, dying at any point, delivered again, taken back, and through either port, no
      file's bytes are lost, and an available file's bytes are at its recorded key and
      nowhere else. */
  lemma {:induction false} RunsAreSound(s: State, steps: seq<Step>)
    requires Inv(s) && CarefulRun(s, steps)
    ensures Inv(After(s, steps)) && Sound(After(s, steps))
    decreases |steps|
  {
    hide Inv, Sound, Enqueue, Work, Refusal, Free;
    if steps == [] {
      InvSound(s);
    } else {
      match steps[0] {
        case Ask(f, q) => EnqueueKeeps(s, f, q);
        case Run(f, mode, port) => WorkKeeps(s, f, mode, port);
        case AcquireLease(f) => LeaseKeeps(s, f);
        case ReleaseLease(f) => LeaseKeeps(s, f);
        case FolderTrashed(folder) => TrashedKeeps(s, folder);
      }
      RunsAreSound(Next(s, steps[0]), steps[1..]);
    }
  }

  // ------------------------------------------------------------------ the catalogue

  /** No two active files agree in folder, name, type and creation time. */
  ghost predicate Distinct(s: State) {
    forall f, g :: f in s.files && g in s.files && f != g && s.files[f].doc.state == ACTIVE ==> s.files[f].doc != s.files[g].doc
  }

  /** The run takes a move back although its old place in the catalogue has been taken. */
  predicate Clashes(s: State, step: Step) {
    && step.Run? && step.f in s.files && s.files[step.f].job.Some? && !Guarded(s.files[step.f])
    && Gone(s.gone, s.files[step.f].job.value)
    && var back := Reverted(s.files[step.f], step.mode).doc;
       back.state == ACTIVE && exists g :: g in s.files && g != step.f && s.files[g].doc == back
  }

  lemma PutDistinct(s: State, f: FileId, rec2: Rec)
    requires Distinct(s)
    ensures Distinct(Put(s, f, rec2)) <==>
            rec2.doc.state != ACTIVE || forall g :: g in s.files && g != f ==> s.files[g].doc != rec2.doc
  {
    var s2 := Put(s, f, rec2);
    if Distinct(s2) && rec2.doc.state == ACTIVE {
      forall g | g in s.files && g != f ensures s.files[g].doc != rec2.doc {
        assert s2.files[g] == s.files[g] && s2.files[f] == rec2;
      }
    }
  }

  lemma AcceptedDiffers(s: State, f: FileId, q: Request)
    requires Distinct(s) && Refusal(s, f, q).None?
    ensures var doc := Catalogued(s.files[f].doc, q);
            doc.state != ACTIVE || forall g :: g in s.files && g != f ==> s.files[g].doc != doc
  {
    hide NameRefusal, Trim;
    assert Catalogued(s.files[f].doc, q).state == if q.Delete? then TRASHED else ACTIVE;
  }

  lemma SameDocDistinct(s: State, f: FileId, rec2: Rec)
    requires Distinct(s) && f in s.files && rec2.doc == s.files[f].doc
    ensures Distinct(Put(s, f, rec2))
  {
    PutDistinct(s, f, rec2);
  }

  /** A run that takes nothing back leaves the catalogue alone. */
  lemma SameDocs(s: State, f: FileId, mode: RunMode, port: Port)
    requires Distinct(s) && f in s.files && s.files[f].job.Some?
    requires Guarded(s.files[f]) || !Gone(s.gone, s.files[f].job.value)
    ensures Distinct(Work(s, f, mode, port))
  {
    var s2 := Work(s, f, mode, port);
    hide Guarded, Gone, Postponed, Attempt, Shift, Src, Dst;
    assert s2.files.Keys == s.files.Keys && forall g :: g in s.files ==> s2.files[g].doc == s.files[g].doc;
  }

  lemma RunDistinct(s: State, f: FileId, mode: RunMode, port: Port)
    requires Distinct(s) && f in s.files
    ensures Distinct(Work(s, f, mode, port)) <==> !Clashes(s, Run(f, mode, port))
  {
    var rec := s.files[f];
    if rec.job.Some? && mode != CrashBefore {
      if !Guarded(rec) && Gone(s.gone, rec.job.value) {
        PutDistinct(s, f, Reverted(rec, mode));
        hide Guarded;
      } else {
        SameDocs(s, f, mode, port);
        hide Guarded, Work;
      }
    } else if rec.job.Some? && !Guarded(rec) && Gone(s.gone, rec.job.value) {
      assert Reverted(rec, mode) == rec;
    }
  }

  lemma StepDistinctExact(s: State, step: Step)
    requires Distinct(s)
    ensures Distinct(Next(s, step)) <==> !Clashes(s, step)
  {
    hide Work, Refusal, Marked;
    match step
    case Ask(f, q) =>
      if Refusal(s, f, q).None? { AskedDistinct(s, f, q); }
    case Run(f, mode, port) =>
      if f in s.files { RunDistinct(s, f, mode, port); } else { NoWork(s, f, mode, port); }
    case AcquireLease(f) =>
      if f in s.files { SameDocDistinct(s, f, s.files[f].(leaseCount := s.files[f].leaseCount + 1)); }
    case ReleaseLease(f) =>
      if f in s.files && s.files[f].leaseCount > 0 { SameDocDistinct(s, f, s.files[f].(leaseCount := s.files[f].leaseCount - 1)); }
    case FolderTrashed(folder) =>
  }

  lemma NoWork(s: State, f: FileId, mode: RunMode, port: Port)
    requires f !in s.files
    ensures Work(s, f, mode, port) == s
  {}

  lemma AskedDistinct(s: State, f: FileId, q: Request)
    requires Distinct(s) && Refusal(s, f, q).None?
    ensures Distinct(Enqueue(s, f, q))
  {
    AcceptedDiffers(s, f, q);
    hide Refusal, Catalogued, JobFor;
    PutDistinct(s, f, Marked(s.files[f], q));
  }

  ghost predicate DistinctRun(s: State, steps: seq<Step>)
    decreases |steps|
  {
    Distinct(s) && (steps != [] ==> DistinctRun(Next(s, steps[0]), steps[1..]))
  }

  predicate UnclashingRun(s: State, steps: seq<Step>)
    decreases |steps|
  {
    steps != [] ==> !Clashes(s, steps[0]) && UnclashingRun(Next(s, steps[0]), steps[1..])
  }

  /** The duplicate checks keep the catalogue free of duplicates over a run iff no move is
      taken back onto a place that another file has taken meanwhile. */
  lemma {:induction false} DistinctExact(s: State, steps: seq<Step>)
    requires Distinct(s)
    ensures DistinctRun(s, steps) <==> UnclashingRun(s, steps)
    decreases |steps|
  {
    if steps != [] {
      StepDistinctExact(s, steps[0]);
      hide Distinct, Next, Clashes;
      if Distinct(Next(s, steps[0])) { DistinctExact(Next(s, steps[0]), steps[1..]); }
    }
  }

  /** Every move of a file into the folder it is in is refused. */
  lemma SameFolderRefused(s: State, f: FileId, path: string)
    requires f in s.files
    ensures Refusal(s, f, Move(Some(Folder(s.files[f].doc.folder, path)))).Some?
  {
    var q := Move(Some(Folder(s.files[f].doc.folder, path)));
    if s.files[f].doc.state == ACTIVE {
      assert s.files[f].doc == Catalogued(s.files[f].doc, q).(state := ACTIVE);
    }
  }
}
