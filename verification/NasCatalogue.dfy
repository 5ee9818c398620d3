/** The catalogue and the NAS keys: what a request changes in a file's entry, and that the key
    goes on carrying the entry's name behind the file's timestamp. */
module NasCatalogue {
  import opened Wrappers
  import opened JsStrings
  import opened PathUtil
  import opened NasNaming
  import opened NasSync

  /** An accepted request changes one entry in one column: a rename the name, a move the
      folder, a deletion the state. The record waits for its job, a rename's under the new
      service key. Bytes, leases and all other files stay. */
  lemma RequestEffect(s: State, f: FileId, q: Request)
    requires Refusal(s, f, q).None?
    ensures var s2 := Enqueue(s, f, q);
            && s2.nas == s.nas && s2.gone == s.gone && s2.files.Keys == s.files.Keys
            && (forall g :: g in s.files && g != f ==> s2.files[g] == s.files[g])
            && s2.files[f].leaseCount == s.files[f].leaseCount && s2.files[f].status == SYNCING && s2.files[f].job.Some?
            && s2.files[f].objectKey == (if q.Rename? then ServiceRenameKey(s.files[f].objectKey, Trim(q.newName)) else s.files[f].objectKey)
            && var d, d2 := s.files[f].doc, s2.files[f].doc;
               && d2.mimeType == d.mimeType && d2.createdAt == d.createdAt
               && d2.name == (if q.Rename? then Trim(q.newName) else d.name)
               && d2.folder == (if q.Move? then q.folder.value.id else d.folder)
               && d2.state == (if q.Delete? then TRASHED else ACTIVE)
  {
    MarkedEffect(s.files[f], q);
    assert Enqueue(s, f, q) == s.(files := s.files[f := Marked(s.files[f], q)]);
    hide Refusal, Marked, Trim, Enqueue, ServiceRenameKey, JobFor, Catalogued;
  }

  lemma MarkedEffect(rec: Rec, q: Request)
    requires Known(q)
    ensures var d, rec2 := rec.doc, Marked(rec, q);
            && rec2.leaseCount == rec.leaseCount && rec2.doc.mimeType == d.mimeType && rec2.doc.createdAt == d.createdAt
            && rec2.doc.name == (if q.Rename? then Trim(q.newName) else d.name)
            && rec2.doc.folder == (if q.Move? then q.folder.value.id else d.folder)
            && rec2.doc.state == (if q.Delete? then TRASHED else d.state)
            && rec2.status == SYNCING && rec2.job == Some(JobFor(rec, q))
            && rec2.objectKey == (if q.Rename? then ServiceRenameKey(rec.objectKey, Trim(q.newName)) else rec.objectKey)
  {
    hide Trim, ServiceRenameKey, MoveTarget, TrashPath;
  }

  // ------------------------------------------------------------------ which requests go through

  /** An active file at this place in the catalogue. */
  predicate At(rec: Rec, folder: string, name: string, mimeType: string, createdAt: int) {
    && rec.doc.state == ACTIVE && rec.doc.folder == folder && rec.doc.name == name
    && rec.doc.mimeType == mimeType && rec.doc.createdAt == createdAt
  }

  /** A request needs an active file that no job is at work on. A rename needs a name with
      the old extension whose place is not taken by another file, a move an active target
      folder in which no file, itself included, has the place, a deletion that nobody holds
      a lease. */
  lemma AcceptedExact(s: State, f: FileId, q: Request)
    ensures Refusal(s, f, q).None? <==>
            && f in s.files && s.files[f].doc.state == ACTIVE && s.files[f].status == AVAILABLE
            && var d := s.files[f].doc;
               match q
               case Rename(newName) =>
                 && Trim(newName) != "" && LowerCase(FileExtension(d.name)) == LowerCase(FileExtension(Trim(newName)))
                 && forall g :: g in s.files && g != f ==> !At(s.files[g], d.folder, Trim(newName), d.mimeType, d.createdAt)
               case Move(folder) =>
                 && folder.Some?
                 && forall g :: g in s.files ==> !At(s.files[g], folder.value.id, d.name, d.mimeType, d.createdAt)
               case Delete(_) => s.files[f].leaseCount == 0
  {
    hide Trim, LowerCase, FileExtension;
    if Known(q) && f in s.files && s.files[f].doc.state == ACTIVE {
      TwinAt(s, Catalogued(s.files[f].doc, q), Some(f));
      TwinAt(s, Catalogued(s.files[f].doc, q), None);
    }
  }

  lemma TwinAt(s: State, doc: Doc, exclude: Option<FileId>)
    ensures !Duplicate(s, doc, exclude) <==>
            forall g :: g in s.files && exclude != Some(g) ==> !At(s.files[g], doc.folder, doc.name, doc.mimeType, doc.createdAt)
  {}

  /** The defect an error names is there. */
  ghost predicate TrueReason(s: State, f: FileId, q: Request, e: Error) {
    match e
    case TARGET_FOLDER_NOT_FOUND => q.Move? && q.folder.None?
    case FILE_NOT_FOUND => f !in s.files
    case FILE_ALREADY_TRASHED => q.Delete? && f in s.files && s.files[f].doc.state == TRASHED
    case FILE_NOT_ACTIVE => f in s.files && s.files[f].doc.state != ACTIVE && (q.Delete? ==> s.files[f].doc.state == DELETED)
    case INVALID_FILE_NAME => q.Rename? && Trim(q.newName) == ""
    case FILE_EXTENSION_CHANGE_NOT_ALLOWED =>
      q.Rename? && f in s.files && LowerCase(FileExtension(s.files[f].doc.name)) != LowerCase(FileExtension(Trim(q.newName)))
    case FILE_SYNCING => f in s.files && s.files[f].status == SYNCING
    case DUPLICATE_FILE_EXISTS =>
      && f in s.files && !q.Delete? && (q.Move? ==> q.folder.Some?)
      && var d := s.files[f].doc;
         exists g :: g in s.files && (q.Rename? ==> g != f)
           && At(s.files[g], if q.Rename? then d.folder else q.folder.value.id, if q.Rename? then Trim(q.newName) else d.name, d.mimeType, d.createdAt)
    case FILE_IN_USE => q.Delete? && f in s.files && s.files[f].leaseCount > 0
  }

  /** A refusal names a defect that is there. */
  lemma RefusedForCause(s: State, f: FileId, q: Request)
    requires Refusal(s, f, q).Some?
    ensures TrueReason(s, f, q, Refusal(s, f, q).value)
  {
    hide Trim, LowerCase, FileExtension;
    if Known(q) && f in s.files {
      TwinAt(s, Catalogued(s.files[f].doc, q), Some(f));
      TwinAt(s, Catalogued(s.files[f].doc, q), None);
    }
  }

  /** The extension is what stands behind the last dot, unless this is the first or the last
      character. */
  lemma ExtensionIs(stem: string, extension: string)
    requires '.' !in extension
    ensures FileExtension(stem + "." + extension) == if stem == "" then "" else extension
    ensures FileExtension(extension) == ""
  {
    var name := stem + "." + extension;
    LastIndexUnique(name, '.', |stem|);
    assert name[|stem| + 1..] == extension;
  }

  predicate SameLetter(a: char, b: char) {
    a == b || ('A' <= a <= 'Z' && b == a - 'A' + 'a') || ('A' <= b <= 'Z' && a == b - 'A' + 'a')
  }

  /** Texts agree in lower case iff they agree but for the case of their letters. */
  lemma LowerCaseExact(a: string, b: string)
    ensures LowerCase(a) == LowerCase(b) <==> |a| == |b| && forall i :: 0 <= i < |a| ==> SameLetter(a[i], b[i])
  {
    var x, y := LowerCase(a), LowerCase(b);
    if x == y {
      forall i | 0 <= i < |a| ensures SameLetter(a[i], b[i]) { assert x[i] == y[i]; }
    }
    if |a| == |b| && forall i :: 0 <= i < |a| ==> SameLetter(a[i], b[i]) {
      forall i | 0 <= i < |a| ensures x[i] == y[i] { assert SameLetter(a[i], b[i]); }
    }
  }

  // ------------------------------------------------------------------ names and keys

  /** The key of a file of this name and timestamp, in some directory. */
  ghost predicate KeyFor(key: Key, timestamp: string, name: string) {
    '/' !in name && exists dir :: CleanDir(dir) && key == KeyOf(dir, timestamp, name)
  }

  /** The key of an active file, and the one its job ends at, carry the entry's name. */
  ghost predicate Matches(rec: Rec, timestamp: string) {
    rec.doc.state == ACTIVE ==>
      && (rec.status == AVAILABLE || (rec.job.Some? && rec.job.value.MoveJob?) ==> KeyFor(rec.objectKey, timestamp, rec.doc.name))
      && (rec.job.Some? ==> KeyFor(Dst(rec.job.value), timestamp, rec.doc.name))
  }

  /** Every file keeps one timestamp. */
  ghost predicate AllMatch(s: State, stamps: map<FileId, string>) {
    forall f :: f in s.files ==> f in stamps && CleanTimestamp(stamps[f]) && Matches(s.files[f], stamps[f])
  }

  /** New names have no slash, and folders have valid paths. */
  predicate Proper(step: Step) {
    step.Ask? ==>
      (step.q.Rename? ==> '/' !in Trim(step.q.newName)) && (step.q.Move? && step.q.folder.Some? ==> IsValidPath(step.q.folder.value.path))
  }

  lemma RenamedKeyFor(key: Key, timestamp: string, name: string, newName: string)
    requires KeyFor(key, timestamp, name) && CleanTimestamp(timestamp) && newName != "" && '/' !in newName
    ensures KeyFor(RenameTarget(key, ServiceRenameKey(key, newName)), timestamp, newName)
  {
    hide RenameTarget, ServiceRenameKey, KeyOf, CleanTimestamp;
    var dir :| CleanDir(dir) && key == KeyOf(dir, timestamp, name);
    RenameKey(dir, timestamp, name, newName);
  }

  lemma BaseOf(dir: string, timestamp: string, name: string)
    requires CleanDir(dir) && CleanTimestamp(timestamp) && '/' !in name
    ensures FileNameFromPath(KeyOf(dir, timestamp, name)) == timestamp + SEP + name
  {
    var base := timestamp + SEP + name;
    assert '/' !in base;
    SlashAt(DirHead(dir), base);
    hide LastIndexOf;
  }

  lemma BuiltKey(path: string, base: string)
    requires IsValidPath(path)
    ensures CleanDir(path) && BuildPath(path, base) == JoinPath(path, base)
  {}

  lemma MovedKeyFor(key: Key, timestamp: string, name: string, path: string)
    requires KeyFor(key, timestamp, name) && CleanTimestamp(timestamp) && IsValidPath(path)
    ensures KeyFor(MoveTarget(path, key), timestamp, name)
  {
    hide FileNameFromPath, BuildPath, JoinPath, CleanDir, CleanTimestamp, IsValidPath;
    var dir :| CleanDir(dir) && key == KeyOf(dir, timestamp, name);
    BaseOf(dir, timestamp, name);
    BuiltKey(path, timestamp + SEP + name);
    assert MoveTarget(path, key) == KeyOf(path, timestamp, name);
  }

  lemma AskMatches(s: State, f: FileId, q: Request, timestamp: string)
    requires Refusal(s, f, q).None? && Proper(Ask(f, q)) && CleanTimestamp(timestamp) && Matches(s.files[f], timestamp)
    ensures Matches(Marked(s.files[f], q), timestamp)
  {
    var rec := s.files[f];
    assert q.Rename? ==> Trim(q.newName) != "";
    hide Refusal;
    MarkedEffect(rec, q);
    if !q.Delete? { JobMatches(rec, q, timestamp); }
    hide Marked, KeyFor, Trim, Dst;
  }

  lemma JobMatches(rec: Rec, q: Request, timestamp: string)
    requires Known(q) && !q.Delete? && Proper(Ask(0, q)) && CleanTimestamp(timestamp) && KeyFor(rec.objectKey, timestamp, rec.doc.name)
    requires q.Rename? ==> Trim(q.newName) != ""
    ensures KeyFor(Dst(JobFor(rec, q)), timestamp, if q.Rename? then Trim(q.newName) else rec.doc.name)
  {
    hide KeyFor, Trim, RenameTarget, ServiceRenameKey, MoveTarget, CleanTimestamp, IsValidPath;
    match q
    case Rename(newName) => RenamedKeyFor(rec.objectKey, timestamp, rec.doc.name, Trim(newName));
    case Move(folder) => MovedKeyFor(rec.objectKey, timestamp, rec.doc.name, folder.value.path);
    case Delete(_) =>
  }

  lemma WorkMatches(s: State, f: FileId, mode: RunMode, port: Port, g: FileId, timestamp: string)
    requires g in s.files && Matches(s.files[g], timestamp)
    ensures g in Work(s, f, mode, port).files && Matches(Work(s, f, mode, port).files[g], timestamp)
  {
    hide KeyFor, Dst, Src, Guarded, Attempt, Shift;
  }

  lemma StepMatches(s: State, step: Step, stamps: map<FileId, string>)
    requires AllMatch(s, stamps) && Proper(step)
    ensures AllMatch(Next(s, step), stamps)
  {
    hide Matches, CleanTimestamp, Refusal, Marked, Work, Proper;
    match step
    case Ask(f, q) => if Refusal(s, f, q).None? { AskMatches(s, f, q, stamps[f]); }
    case Run(f, mode, port) =>
      RunFiles(s, f, mode, port);
      forall g | g in s.files ensures g in Work(s, f, mode, port).files && Matches(Work(s, f, mode, port).files[g], stamps[g]) {
        WorkMatches(s, f, mode, port, g, stamps[g]);
      }
    case AcquireLease(f) => if f in s.files { LeaseMatches(s.files[f], s.files[f].leaseCount + 1, stamps[f]); }
    case ReleaseLease(f) => if f in s.files && s.files[f].leaseCount > 0 { LeaseMatches(s.files[f], s.files[f].leaseCount - 1, stamps[f]); }
    case FolderTrashed(_) =>
  }

  lemma RunFiles(s: State, f: FileId, mode: RunMode, port: Port)
    ensures Work(s, f, mode, port).files.Keys == s.files.Keys
  {
    hide Guarded, Gone, Postponed, Attempt, Shift, Reverted, Saved;
  }

  lemma LeaseMatches(rec: Rec, n: nat, timestamp: string)
    requires Matches(rec, timestamp)
    ensures Matches(rec.(leaseCount := n), timestamp)
  {
    hide KeyFor, Dst;
  }

  /** Main result: over every run with proper requests, whichever way the worker runs go, the
      key of an active available file is its directory, its first timestamp and the name in
      the catalogue. */
  lemma {:induction false} RunsMatch(s: State, steps: seq<Step>, stamps: map<FileId, string>)
    requires AllMatch(s, stamps) && forall i :: 0 <= i < |steps| ==> Proper(steps[i])
    ensures AllMatch(After(s, steps), stamps)
    decreases |steps|
  {
    hide AllMatch, Next, Proper;
    if steps != [] {
      StepMatches(s, steps[0], stamps);
      forall i | 0 <= i < |steps[1..]| ensures Proper(steps[1..][i]) { assert steps[1..][i] == steps[i + 1]; }
      RunsMatch(Next(s, steps[0]), steps[1..], stamps);
    }
  }
}
