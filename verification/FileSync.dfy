/** The operations of the file service and of the NAS worker on the tables they share, step by
    step. */
module FileSync {
  import opened Wrappers
  import opened JsStrings
  import opened NasNaming
  import opened NasSync

  class FileSync {
    var files: map<FileId, Rec>
    var nas: map<Key, FileId>
    var gone: set<string>
    const port: Port

    constructor (s: State, port: Port)
      ensures Abs() == s && this.port == port
    {
      files, nas, gone, this.port := s.files, s.nas, s.gone, port;
    }

    function Abs(): State
      reads this
    {
      State(files, nas, gone)
    }

    // ---------------------------------------------------------------- the service

    method ValidateRenameRequest(originalName: string, newName: string) returns (r: Result<string, Error>)
      ensures r.Ok? ==> r.value == Trim(newName) && NameRefusal(originalName, r.value).None?
      ensures r.Err? ==> NameRefusal(originalName, Trim(newName)) == Some(r.error)
    {
      hide Trim, FileExtension, LowerCase;
      var trimmed := Trim(newName);
      if trimmed == "" { return Err(INVALID_FILE_NAME); }
      if LowerCase(FileExtension(originalName)) != LowerCase(FileExtension(trimmed)) {
        return Err(FILE_EXTENSION_CHANGE_NOT_ALLOWED);
      }
      return Ok(trimmed);
    }

    method Rename(f: FileId, newName: string) returns (r: Result<Job, Error>)
      modifies this`files
      ensures Abs() == Enqueue(old(Abs()), f, Request.Rename(newName))
      ensures r.Err? ==> Refusal(old(Abs()), f, Request.Rename(newName)) == Some(r.error)
      ensures r.Ok? ==> Refusal(old(Abs()), f, Request.Rename(newName)).None? && files[f].job == Some(r.value)
    {
      hide Trim, NameRefusal, Duplicate, ServiceRenameKey;
      if f !in files { return Err(FILE_NOT_FOUND); }
      var rec := files[f];
      if rec.doc.state != ACTIVE { return Err(FILE_NOT_ACTIVE); }
      var name := ValidateRenameRequest(rec.doc.name, newName);
      if name.Err? { return Err(name.error); }
      if rec.status == SYNCING { return Err(FILE_SYNCING); }
      var doc := rec.doc.(name := name.value);
      if Duplicate(Abs(), doc, Some(f)) { return Err(DUPLICATE_FILE_EXISTS); }
      var newObjectKey := ServiceRenameKey(rec.objectKey, name.value);
      var job := RenameJob(rec.objectKey, newObjectKey);
      files := files[f := rec.(doc := doc, objectKey := newObjectKey, status := SYNCING, job := Some(job))];
      return Ok(job);
    }

    method Move(f: FileId, folder: Option<Folder>) returns (r: Result<Job, Error>)
      modifies this`files
      ensures Abs() == Enqueue(old(Abs()), f, Request.Move(folder))
      ensures r.Err? ==> Refusal(old(Abs()), f, Request.Move(folder)) == Some(r.error)
      ensures r.Ok? ==> Refusal(old(Abs()), f, Request.Move(folder)).None? && files[f].job == Some(r.value)
    {
      hide Duplicate, MoveTarget;
      if folder.None? { return Err(TARGET_FOLDER_NOT_FOUND); }
      if f !in files { return Err(FILE_NOT_FOUND); }
      var rec := files[f];
      if rec.doc.state != ACTIVE { return Err(FILE_NOT_ACTIVE); }
      if rec.status == SYNCING { return Err(FILE_SYNCING); }
      var doc := rec.doc.(folder := folder.value.id);
      if Duplicate(Abs(), doc, None) { return Err(DUPLICATE_FILE_EXISTS); }
      var job := MoveJob(rec.objectKey, MoveTarget(folder.value.path, rec.objectKey), rec.doc.folder, folder.value.id);
      files := files[f := rec.(doc := doc, status := SYNCING, job := Some(job))];
      return Ok(job);
    }

    method Delete(f: FileId, trashId: string) returns (r: Result<Job, Error>)
      modifies this`files
      ensures Abs() == Enqueue(old(Abs()), f, Request.Delete(trashId))
      ensures r.Err? ==> Refusal(old(Abs()), f, Request.Delete(trashId)) == Some(r.error)
      ensures r.Ok? ==> Refusal(old(Abs()), f, Request.Delete(trashId)).None? && files[f].job == Some(r.value)
    {
      hide TrashPath;
      if f !in files { return Err(FILE_NOT_FOUND); }
      var rec := files[f];
      if rec.doc.state == TRASHED { return Err(FILE_ALREADY_TRASHED); }
      if rec.doc.state != ACTIVE { return Err(FILE_NOT_ACTIVE); }
      if rec.status == SYNCING { return Err(FILE_SYNCING); }
      if rec.leaseCount > 0 { return Err(FILE_IN_USE); }
      var job := TrashJob(rec.objectKey, TrashPath(trashId, rec.objectKey));
      files := files[f := rec.(doc := rec.doc.(state := TRASHED), status := SYNCING, job := Some(job))];
      return Ok(job);
    }

    // ---------------------------------------------------------------- the worker

    /** The port's move operation. Between devices it copies and then deletes, and may die
        in between. */
    method MoveFile(src: Key, dst: Key, sameDevice: bool, dies: bool) returns (outcome: Outcome)
      requires dies ==> !sameDevice
      modifies this`nas
      ensures outcome == Attempt(old(nas), src, dst, port)
      ensures nas == if outcome != Moved then old(nas)
                     else if dies then old(nas)[dst := old(nas)[src]]
                     else Shift(old(nas), src, dst)
    {
      if port == NfsAdapter && src == dst { return Failed; }
      if src !in nas {
        if port == WithErrno { return AlreadyDone; }
        return Failed;
      }
      var bytes := nas[src];
      if src == dst {
        assert nas[dst := bytes] == nas;
      } else if sameDevice {
        nas := (nas - {src})[dst := bytes];
      } else {
        nas := nas[dst := bytes];
        if dies { return Moved; }
        nas := nas - {src};
      }
      return Moved;
    }

    /** The move handler's branch for a target folder that has gone; moveTo refuses a file
        that is not active. */
    method TakeBack(f: FileId, mode: RunMode)
      requires f in files && files[f].job.Some? && files[f].job.value.MoveJob?
      modifies this`files
      ensures files == old(files)[f := Reverted(old(files)[f], mode)]
    {
      var rec := files[f];
      if rec.doc.state != ACTIVE || mode == CrashBefore || mode == CrashInCopy { return; }
      rec := rec.(doc := rec.doc.(folder := rec.job.value.originalFolder));
      files := files[f := rec];
      if mode == CrashBetween { return; }
      rec := rec.(status := AVAILABLE);
      files := files[f := rec];
      if mode == CrashAfter { return; }
      files := files[f := rec.(job := None)];
    }

    /** execute() of the rename, move and trash handlers, which may die at each point. */
    method Execute(f: FileId, mode: RunMode, sameDevice: bool)
      requires mode == CrashInCopy ==> !sameDevice
      modifies this`files, this`nas
      ensures Abs() == Work(old(Abs()), f, mode, port)
    {
      hide RenameTarget, Reverted;
      if f !in files || files[f].job.None? || mode == CrashBefore { return; }
      var rec := files[f];
      var job := rec.job.value;
      if rec.status == AVAILABLE && rec.objectKey == GuardKey(job) {
        if mode == Complete { files := files[f := rec.(job := None)]; }
        return;
      }
      if job.MoveJob? && job.targetFolder in gone {
        TakeBack(f, mode);
        return;
      }
      if job.TrashJob? && rec.leaseCount > 0 { return; }
      var outcome := MoveFile(Src(job), Dst(job), sameDevice, mode == CrashInCopy);
      if outcome == Failed || mode == CrashInCopy || mode == CrashBetween { return; }
      rec := rec.(status := AVAILABLE);
      rec := rec.(objectKey := Dst(job));
      files := files[f := rec];
      if mode == CrashAfter { return; }
      files := files[f := rec.(job := None)];
    }
  }
}
