/** What one job does, run by run: where it ends, what each crash point leaves behind, and what
    leases and trashed folders have to do with it. */
module NasJobs {
  import opened Wrappers
  import opened JsStrings
  import opened PathUtil
  import opened NasNaming
  import opened NasSync
  import opened NasCatalogue

  // ------------------------------------------------------------------ where a job ends

  /** Nothing keeps the handler from moving the file: the bytes are there, the target folder
      has not gone, nobody holds a lease, and the port does not wait for itself. */
  predicate Clear(s: State, f: FileId, port: Port) {
    && f in s.files && s.files[f].status == SYNCING && s.files[f].job.Some?
    && var j := s.files[f].job.value;
       && Src(j) in s.nas && (port == NfsAdapter ==> Src(j) != Dst(j))
       && (j.MoveJob? ==> j.targetFolder !in s.gone) && (j.TrashJob? ==> s.files[f].leaseCount == 0)
  }

  /** A complete run leaves the bytes, and the record, at the key the job ends at. */
  lemma JobDone(s: State, f: FileId, port: Port)
    requires Clear(s, f, port)
    ensures var rec, s2 := s.files[f], Work(s, f, Complete, port);
            && f in s2.files && s2.files[f] == Rec(rec.doc, Dst(rec.job.value), AVAILABLE, rec.leaseCount, None)
            && Holds(s2.nas, s.nas[Src(rec.job.value)], Dst(rec.job.value))
            && (Src(rec.job.value) != Dst(rec.job.value) ==> Src(rec.job.value) !in s2.nas)
  {
    hide Src, Dst, GuardKey;
  }

  lemma RenameMarks(rec: Rec, newName: string, dir: string, timestamp: string)
    requires rec.objectKey == KeyOf(dir, timestamp, rec.doc.name) && Trim(newName) != ""
    requires CleanDir(dir) && CleanTimestamp(timestamp) && '/' !in rec.doc.name && '/' !in Trim(newName)
    ensures var rec2, target := Marked(rec, Rename(newName)), KeyOf(dir, timestamp, Trim(newName));
            && rec2.status == SYNCING && rec2.doc == rec.doc.(name := Trim(newName)) && rec2.job.Some? && rec2.job.value.RenameJob?
            && Src(rec2.job.value) == rec.objectKey && Dst(rec2.job.value) == target
            && (target == rec.objectKey <==> Trim(newName) == rec.doc.name)
  {
    var name := Trim(newName);
    hide Trim, KeyOf, RenameTarget, ServiceRenameKey, CleanDir, CleanTimestamp;
    RenameKey(dir, timestamp, rec.doc.name, name);
    SameKeyIffSameName(dir, timestamp, rec.doc.name, name);
  }

  /** An accepted rename of a file whose bytes are at dir/timestamp__name ends, after one
      complete run, at dir/timestamp__ and the new name, which is then the entry's name. */
  lemma RenameEnds(s: State, f: FileId, newName: string, port: Port, dir: string, timestamp: string)
    requires Refusal(s, f, Rename(newName)).None? && s.files[f].objectKey in s.nas
    requires s.files[f].objectKey == KeyOf(dir, timestamp, s.files[f].doc.name)
    requires CleanDir(dir) && CleanTimestamp(timestamp) && '/' !in s.files[f].doc.name && '/' !in Trim(newName)
    requires port == NfsAdapter ==> Trim(newName) != s.files[f].doc.name
    ensures var s2 := Work(Enqueue(s, f, Rename(newName)), f, Complete, port);
            && f in s2.files && s2.files[f].status == AVAILABLE && s2.files[f].job.None?
            && s2.files[f].doc == s.files[f].doc.(name := Trim(newName))
            && s2.files[f].objectKey == KeyOf(dir, timestamp, s2.files[f].doc.name)
            && Holds(s2.nas, s.nas[s.files[f].objectKey], s2.files[f].objectKey)
  {
    var rec := s.files[f];
    assert Trim(newName) != "";
    RenameMarks(rec, newName, dir, timestamp);
    var s1 := Enqueue(s, f, Rename(newName));
    assert s1.files[f] == Marked(rec, Rename(newName)) && s1.nas == s.nas;
    hide Refusal, Trim, KeyOf, CleanDir, CleanTimestamp, Marked, Enqueue, Work, Src, Dst;
    JobDone(s1, f, port);
  }

  lemma MoveMarks(rec: Rec, folder: Folder, dir: string, timestamp: string)
    requires rec.objectKey == KeyOf(dir, timestamp, rec.doc.name) && IsValidPath(folder.path)
    requires CleanDir(dir) && CleanTimestamp(timestamp) && '/' !in rec.doc.name
    ensures var rec2 := Marked(rec, Move(Some(folder)));
            && rec2.status == SYNCING && rec2.doc == rec.doc.(folder := folder.id) && rec2.job.Some? && rec2.job.value.MoveJob?
            && Src(rec2.job.value) == rec.objectKey && Dst(rec2.job.value) == KeyOf(folder.path, timestamp, rec.doc.name)
            && rec2.job.value.targetFolder == folder.id && rec2.job.value.originalFolder == rec.doc.folder
  {
    hide FileNameFromPath, BuildPath, JoinPath, CleanDir, CleanTimestamp, IsValidPath;
    BaseOf(dir, timestamp, rec.doc.name);
    BuiltKey(folder.path, timestamp + SEP + rec.doc.name);
  }

  /** An accepted move into a folder that is still there ends below its path, under the same
      timestamp and name. */
  lemma MoveEnds(s: State, f: FileId, folder: Folder, port: Port, dir: string, timestamp: string)
    requires Refusal(s, f, Move(Some(folder))).None? && s.files[f].objectKey in s.nas && folder.id !in s.gone
    requires s.files[f].objectKey == KeyOf(dir, timestamp, s.files[f].doc.name) && IsValidPath(folder.path)
    requires CleanDir(dir) && CleanTimestamp(timestamp) && '/' !in s.files[f].doc.name
    requires port == NfsAdapter ==> KeyOf(folder.path, timestamp, s.files[f].doc.name) != s.files[f].objectKey
    ensures var s2 := Work(Enqueue(s, f, Move(Some(folder))), f, Complete, port);
            && f in s2.files && s2.files[f].status == AVAILABLE && s2.files[f].job.None?
            && s2.files[f].doc == s.files[f].doc.(folder := folder.id)
            && s2.files[f].objectKey == KeyOf(folder.path, timestamp, s2.files[f].doc.name)
            && Holds(s2.nas, s.nas[s.files[f].objectKey], s2.files[f].objectKey)
  {
    var rec := s.files[f];
    MoveMarks(rec, folder, dir, timestamp);
    var s1 := Enqueue(s, f, Move(Some(folder)));
    assert s1.files[f] == Marked(rec, Move(Some(folder))) && s1.nas == s.nas && s1.gone == s.gone;
    hide Refusal, KeyOf, CleanDir, CleanTimestamp, IsValidPath, Marked, Enqueue, Work, Src, Dst;
    JobDone(s1, f, port);
  }

  lemma DeleteMarks(rec: Rec, trashId: string, dir: string, base: string)
    requires rec.objectKey == dir + "/" + base && base != "" && '/' !in base && '/' !in trashId && '_' !in trashId
    ensures var rec2 := Marked(rec, Delete(trashId));
            && rec2.status == SYNCING && rec2.doc == rec.doc.(state := TRASHED) && rec2.leaseCount == rec.leaseCount
            && rec2.job.Some? && rec2.job.value.TrashJob? && Src(rec2.job.value) == rec.objectKey
            && Dst(rec2.job.value) == ".trash/" + trashId + "__" + base
            && (forall path {:trigger BuildPath(path, base)} :: IsValidPath(path) ==>
                  RestorePath(path, Dst(rec2.job.value)) == BuildPath(path, base))
  {
    ExtractNameOf(dir, base);
    hide ExtractName, IsValidPath, BuildPath, RestorePath;
    forall path | IsValidPath(path) ensures RestorePath(path, TrashPath(trashId, rec.objectKey)) == BuildPath(path, base) {
      TrashRestoreRoundTrip(trashId, dir, base, path);
    }
  }

  /** An accepted deletion ends in the trash, at a key from which a restore into any folder
      finds the file's base name again. */
  lemma DeleteEnds(s: State, f: FileId, trashId: string, port: Port, dir: string, base: string, path: string)
    requires Refusal(s, f, Delete(trashId)).None? && s.files[f].objectKey in s.nas && IsValidPath(path)
    requires s.files[f].objectKey == dir + "/" + base && base != "" && '/' !in base && '/' !in trashId && '_' !in trashId
    requires port == NfsAdapter ==> s.files[f].objectKey != ".trash/" + trashId + "__" + base
    ensures var s2 := Work(Enqueue(s, f, Delete(trashId)), f, Complete, port);
            && f in s2.files && s2.files[f].status == AVAILABLE && s2.files[f].job.None?
            && s2.files[f].doc == s.files[f].doc.(state := TRASHED)
            && s2.files[f].objectKey == ".trash/" + trashId + "__" + base
            && Holds(s2.nas, s.nas[s.files[f].objectKey], s2.files[f].objectKey)
            && RestorePath(path, s2.files[f].objectKey) == BuildPath(path, base)
  {
    var rec := s.files[f];
    DeleteMarks(rec, trashId, dir, base);
    var s1 := Enqueue(s, f, Delete(trashId));
    assert s1.files[f] == Marked(rec, Delete(trashId)) && s1.nas == s.nas && rec.leaseCount == 0;
    hide Refusal, IsValidPath, Marked, Enqueue, Work, Src, Dst, BuildPath, RestorePath;
    JobDone(s1, f, port);
  }

  // ------------------------------------------------------------------ crash points

  lemma CopyPoint(s: State, f: FileId, port: Port)
    requires f in s.files
    ensures var copied, done := Work(s, f, CrashInCopy, port), Work(s, f, Complete, port);
            copied.files == s.files && copied.gone == s.gone
            && forall k :: k in copied.nas ==> Holds(s.nas, copied.nas[k], k) || Holds(done.nas, copied.nas[k], k)
  {
    hide Src, Dst, GuardKey;
  }

  lemma BetweenPoint(s: State, f: FileId, port: Port)
    requires f in s.files
    ensures var between, done := Work(s, f, CrashBetween, port), Work(s, f, Complete, port);
            && between.nas == done.nas && between.gone == s.gone && between.files.Keys == s.files.Keys
            && between.files[f] == s.files[f].(doc := done.files[f].doc)
  {
    hide Src, Dst, GuardKey, Shift, Attempt;
  }

  lemma AfterPoint(s: State, f: FileId, port: Port)
    requires f in s.files
    ensures var after, done := Work(s, f, CrashAfter, port), Work(s, f, Complete, port);
            && after.nas == done.nas && after.gone == s.gone && f in done.files
            && after.files == done.files[f := done.files[f].(job := s.files[f].job)]
  {
    hide Src, Dst, GuardKey, Shift, Attempt;
  }

  /** Each crash leaves a part of what the complete run does: nothing; a copy of the bytes at
      the target; the bytes where they end up, the record as it was but for a folder put
      back; or everything but the acknowledgement. */
  lemma CrashPoints(s: State, f: FileId, port: Port)
    requires f in s.files
    ensures Work(s, f, CrashBefore, port) == s
    ensures var copied, done := Work(s, f, CrashInCopy, port), Work(s, f, Complete, port);
            copied.files == s.files && copied.gone == s.gone
            && forall k :: k in copied.nas ==> Holds(s.nas, copied.nas[k], k) || Holds(done.nas, copied.nas[k], k)
    ensures var between, done := Work(s, f, CrashBetween, port), Work(s, f, Complete, port);
            && between.nas == done.nas && between.gone == s.gone && between.files.Keys == s.files.Keys && f in done.files
            && between.files[f] == s.files[f].(doc := done.files[f].doc)
    ensures var after, done := Work(s, f, CrashAfter, port), Work(s, f, Complete, port);
            && after.nas == done.nas && after.gone == s.gone && f in done.files
            && after.files == done.files[f := done.files[f].(job := s.files[f].job)]
  {
    CopyPoint(s, f, port);
    BetweenPoint(s, f, port);
    AfterPoint(s, f, port);
    assert Work(s, f, CrashBefore, port) == s;
    hide Work;
  }

  // ------------------------------------------------------------------ leases

  /** A trash job waits while somebody holds a lease on the file. */
  lemma LeasedWaits(s: State, f: FileId, mode: RunMode, port: Port)
    requires f in s.files && s.files[f].status == SYNCING && s.files[f].leaseCount > 0
    requires s.files[f].job.Some? && s.files[f].job.value.TrashJob?
    ensures Work(s, f, mode, port) == s
  {}

  /** A lease taken is counted until it is given back, and so long a deletion is refused. */
  lemma LeaseCounts(s: State, f: FileId, trashId: string)
    requires f in s.files && s.files[f].status == AVAILABLE
    ensures Refusal(Next(s, AcquireLease(f)), f, Delete(trashId)).Some?
    ensures Next(Next(s, AcquireLease(f)), ReleaseLease(f)) == s
  {}

  /** A file on its way to the trash is leased by nobody, or the job is done but for its
      acknowledgement. */
  predicate LeaseFree(rec: Rec) {
    rec.job.Some? && rec.job.value.TrashJob? ==> (rec.status == SYNCING && rec.leaseCount == 0) || Guarded(rec)
  }

  ghost predicate AllLeaseFree(s: State) { forall f :: f in s.files ==> LeaseFree(s.files[f]) }

  lemma StepLeaseFree(s: State, step: Step)
    requires AllLeaseFree(s)
    ensures AllLeaseFree(Next(s, step))
  {
    hide Trim, ServiceRenameKey, TrashPath, MoveTarget, NameRefusal, Duplicate, RenameTarget;
  }

  /** Over every run: a deletion is refused while the file is leased and a file on its way is
      leased to nobody, so the trash handler never finds a lease. */
  lemma {:induction false} NeverPostponed(s: State, steps: seq<Step>, f: FileId)
    requires AllLeaseFree(s)
    ensures var s2 := After(s, steps); f in s2.files && Postponed(s2.files[f]) ==> Guarded(s2.files[f])
    decreases |steps|
  {
    if steps == [] {
      assert f in s.files ==> LeaseFree(s.files[f]);
    } else {
      StepLeaseFree(s, steps[0]);
      hide Next, AllLeaseFree, Postponed, Guarded;
      NeverPostponed(Next(s, steps[0]), steps[1..], f);
    }
  }

  // ------------------------------------------------------------------ trashed folders

  /** A folder goes to the trash iff no active file is in it; nothing else changes. */
  lemma TrashedExact(s: State, folder: string, other: string)
    ensures var s2 := Next(s, FolderTrashed(folder));
            && s2.files == s.files && s2.nas == s.nas
            && (other in s2.gone <==>
                  other in s.gone || (other == folder && forall f :: f in s.files && s.files[f].doc.folder == folder ==> s.files[f].doc.state != ACTIVE))
  {}
}
