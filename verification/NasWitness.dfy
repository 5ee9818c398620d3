/** Concrete runs in which the checks of the service or the guards of the worker are not
    enough. */
module NasWitness {
  import opened Wrappers
  import opened JsStrings
  import opened PathUtil
  import opened NasNaming
  import opened NasSync
  import opened NasConflict
  import opened NasRetry

  // ------------------------------------------------------------------ a clash the checks let through

  const STAMP := "20260203023315"
  const NAS_NAME := STAMP + SEP + "a.txt"
  const X_KEY := "/x" + "/" + NAS_NAME
  const Y_KEY := "/y" + "/" + NAS_NAME
  const TO_Y := Move(Some(Folder("Y", "/y")))

  function Idle(doc: Doc, key: Key): Rec { Rec(doc, key, AVAILABLE, 0, None) }

  const A_DOC := Doc("X", "a.txt", "text/plain", 0, ACTIVE)

  const B_DOC := Doc("Y", "a.txt", "text/csv", 0, ACTIVE)

  /** Two files at rest. */
  function Two(d0: Doc, d1: Doc, k0: Key, k1: Key): State {
    State(map[0 := Idle(d0, k0), 1 := Idle(d1, k1)], map[k0 := 0, k1 := 1], {})
  }

  lemma TwoInv(d0: Doc, d1: Doc, k0: Key, k1: Key)
    requires k0 != k1 && d0 != d1
    ensures Inv(Two(d0, d1, k0, k1)) && Distinct(Two(d0, d1, k0, k1))
  {
    var s := Two(d0, d1, k0, k1);
    forall f | f in s.files ensures Located(s, f) {}
    forall f, g | f in s.files && g in s.files ensures Disjoint(s, f, g) {}
  }

  /** Two files of the same name and second, of different type, in folders X and Y. */
  function TwoFiles(): State { Two(A_DOC, B_DOC, X_KEY, Y_KEY) }

  lemma TwoFilesInv()
    ensures X_KEY != Y_KEY && Inv(TwoFiles()) && Distinct(TwoFiles())
  {
    hide Inv, Distinct, Two;
    assert X_KEY[1] == 'x' && Y_KEY[1] == 'y';
    TwoInv(A_DOC, B_DOC, X_KEY, Y_KEY);
  }

  lemma MovedKey()
    ensures MoveTarget("/y", X_KEY) == Y_KEY
  {
    assert '/' !in NAS_NAME;
    MoveKeepsBase("/x", NAS_NAME, "/y");
  }

  /** Moving the first file to Y passes every check, since the types differ, and its one run
      destroys the second file's bytes. */
  lemma SameSecondClash(port: Port)
    ensures Inv(TwoFiles()) && Distinct(TwoFiles())
    ensures Refusal(TwoFiles(), 0, TO_Y).None? && !Free(TwoFiles(), 0, TO_Y)
    ensures !Sound(After(Enqueue(TwoFiles(), 0, TO_Y), [Run(0, Complete, port)]))
  {
    var s := TwoFiles();
    TwoFilesInv();
    MovedKey();
    hide MoveTarget, Inv, Distinct;
    var rec2 := Marked(s.files[0], TO_Y);
    AcceptedAssigns(s, 0, TO_Y);
    assert Y_KEY in Claimed(s.gone, s.files[1]) && Y_KEY in Claimed(s.gone, rec2);
    AllLost(s, rec2, Y_KEY, port);
  }

  /** The first file takes the second one's only place. */
  lemma AllLost(s: State, rec2: Rec, k: Key, port: Port)
    requires Inv(s) && s.files.Keys == {0, 1} && Assigned(s.files[0], rec2)
    requires s.files[1].status == AVAILABLE && s.files[1].objectKey == k
    requires k in Claimed(s.gone, rec2) && k in Claimed(s.gone, s.files[1])
    ensures !Sound(After(Put(s, 0, rec2), [Run(0, Complete, port)]))
  {
    Place(s, 1);
    hide Inv, Claimed, Assigned, Work, Sound;
    FirstRun(s, 0, 1, rec2, k, port);
    Lost(Work(Put(s, 0, rec2), 0, Complete, port), 1);
    AfterOne(Put(s, 0, rec2), Run(0, Complete, port));
  }

  // ------------------------------------------------------------------ a move that never ends

  /** One file at rest. */
  function One(d: Doc, k: Key): State { State(map[0 := Idle(d, k)], map[k := 0], {}) }

  lemma OneInv(d: Doc, k: Key)
    ensures Inv(One(d, k))
  {
    var s := One(d, k);
    forall f | f in s.files ensures Located(s, f) {}
    forall f, g | f in s.files && g in s.files ensures Disjoint(s, f, g) {}
  }

  function OneFile(): State { One(A_DOC, X_KEY) }

  predicate SyncingAfter(s: State, f: FileId, modes: seq<RunMode>, port: Port) {
    var s2 := Retries(s, f, modes, port);
    f in s2.files && s2.files[f].status == SYNCING
  }

  /** Moving it, with a run that dies after the NAS move, leaves it SYNCING. */
  lemma StuckMove()
    ensures Refusal(OneFile(), 0, TO_Y).None?
    ensures Pending(Enqueue(OneFile(), 0, TO_Y), 0) && SyncingAfter(Enqueue(OneFile(), 0, TO_Y), 0, [CrashBetween, Complete], NfsAdapter)
  {
    var s := OneFile();
    OneInv(A_DOC, X_KEY);
    MovedKey();
    assert X_KEY[1] == 'x' && Y_KEY[1] == 'y';
    hide MoveTarget, Inv, X_KEY, Y_KEY, Retries, Pending;
    PendingFresh(s, 0, TO_Y);
    CrashedOnce(Enqueue(s, 0, TO_Y), 0);
  }

  lemma CrashedOnce(s: State, f: FileId)
    requires Pending(s, f)
    ensures SyncingAfter(s, f, [CrashBetween, Complete], NfsAdapter)
  {
    RetriesAppend(s, f, [CrashBetween], NfsAdapter);
    assert [CrashBetween] + [Complete] == [CrashBetween, Complete];
    assert FirstEffect([CrashBetween]) == CrashBetween;
    PhaseRetries(s, f, Waiting, [CrashBetween], NfsAdapter);
    NfsPhase(Waiting, [CrashBetween]);
    CompleteStep(s, f, MovedOnly, NfsAdapter);
    hide Retries, Inv, RenameTarget, Shift;
  }

  // ------------------------------------------------------------------ renames

  lemma PlainTrim(s: string)
    requires s != "" && !IsSpace(s[0]) && !IsSpace(s[|s| - 1])
    ensures Trim(s) == s
  {}

  lemma XKeyParts()
    ensures KeyOf("/x", STAMP, "a.txt") == X_KEY && CleanDir("/x") && CleanTimestamp(STAMP) && '/' !in "a.txt"
  {
    assert DirHead("/x") == "/x" + "/";
    assert KeyOf("/x", STAMP, "a.txt") == "/x" + "/" + (STAMP + SEP + "a.txt");
    assert '_' !in STAMP;
    NoUnderscoreClean(STAMP);
  }

  lemma ExtensionOf(stem: string, ext: string)
    requires stem != "" && ext != "" && '.' !in ext
    ensures FileExtension(stem + "." + ext) == ext
  {
    LastIndexUnique(stem + "." + ext, '.', |stem|);
  }

  lemma TextNameAccepted(stem: string)
    requires stem != "" && !IsSpace(stem[0])
    ensures Trim(stem + ".txt") == stem + ".txt" && NameRefusal("a.txt", stem + ".txt").None?
  {
    var n := stem + ".txt";
    assert n[|n| - 1] == 't';
    PlainTrim(n);
    assert n == stem + "." + "txt" && "a.txt" == "a" + "." + "txt";
    ExtensionOf(stem, "txt");
    ExtensionOf("a", "txt");
    hide FileExtension, LowerCase, Trim;
  }

  /** A text file may take any other name with its extension, if no other text file exists. */
  lemma RenameAccepted(s: State, f: FileId, stem: string)
    requires f in s.files && s.files[f] == Idle(A_DOC, X_KEY) && stem != "" && !IsSpace(stem[0])
    requires forall g :: g in s.files && g != f ==> s.files[g].doc.mimeType != "text/plain"
    ensures Refusal(s, f, Rename(stem + ".txt")).None?
  {
    TextNameAccepted(stem);
    hide NameRefusal, Trim, X_KEY;
  }

  /** Where a rename of this file ends, and whether its handler would know it as done. */
  lemma RenamedKey(stem: string)
    requires stem != "" && !IsSpace(stem[0]) && '/' !in stem
    ensures var j := JobFor(Idle(A_DOC, X_KEY), Rename(stem + ".txt"));
            && Dst(j) == KeyOf("/x", STAMP, stem + ".txt")
            && (Dst(j) == X_KEY <==> stem + ".txt" == "a.txt")
            && GuardKey(j) != Dst(j)
  {
    TextNameAccepted(stem);
    XKeyParts();
    var n := stem + ".txt";
    assert '/' !in n;
    RenameKey("/x", STAMP, "a.txt", n);
    SameKeyIffSameName("/x", STAMP, "a.txt", n);
    GuardExact(Idle(A_DOC, X_KEY), "/x", STAMP, "a.txt", Rename(n));
    hide RenameTarget, ServiceRenameKey, KeyOf, Trim, X_KEY;
  }

  /** An accepted request whose job ends where it starts. */
  lemma StuckAt(d: Doc, k: Key, q: Request, modes: seq<RunMode>)
    requires Refusal(One(d, k), 0, q).None? && q.Rename? && Dst(JobFor(Idle(d, k), q)) == k
    ensures SyncingAfter(Enqueue(One(d, k), 0, q), 0, modes, NfsAdapter)
  {
    var s := One(d, k);
    hide Inv, Retries, RenameTarget, Refusal, JobFor;
    OneInv(d, k);
    AcceptedAssigns(s, 0, q);
    assert Free(s, 0, q);
    EnqueueKeeps(s, 0, q);
    SameKeyJob(Enqueue(s, 0, q), 0, modes);
  }

  /** Renaming the file to the name it has is accepted; through the NFS adapter the job never
      ends. */
  lemma StuckRename(modes: seq<RunMode>)
    ensures Refusal(OneFile(), 0, Rename("a.txt")).None?
    ensures SyncingAfter(Enqueue(OneFile(), 0, Rename("a.txt")), 0, modes, NfsAdapter)
  {
    assert "a.txt" == "a" + ".txt";
    hide Retries, RenameTarget, ServiceRenameKey, Trim, KeyOf, NameRefusal, Refusal, Enqueue, JobFor, Dst, SyncingAfter;
    RenameAccepted(OneFile(), 0, "a");
    RenamedKey("a");
    StuckAt(A_DOC, X_KEY, Rename("a.txt"), modes);
  }

  // ------------------------------------------------------------------ a rename that is delivered again

  const TO_B := Rename("b.txt")
  const TO_X := Move(Some(Folder("X", "/x")))

  /** After a request and a run that died after saving the record. */
  function SavedOnce(s: State, f: FileId, q: Request, port: Port): State {
    Work(Enqueue(s, f, q), f, CrashAfter, port)
  }

  lemma SavedOnceInv(s: State, f: FileId, q: Request, port: Port)
    requires Inv(s) && (Refusal(s, f, q).None? ==> Free(s, f, q))
    ensures Inv(SavedOnce(s, f, q, port))
  {
    hide Refusal, Inv, Enqueue, Work;
    EnqueueKeeps(s, f, q);
    WorkKeeps(Enqueue(s, f, q), f, CrashAfter, port);
  }

  lemma SavedOnceIs(s: State, f: FileId, q: Request, port: Port)
    requires Refusal(s, f, q).None? && q.Rename? && s.files[f].objectKey in s.nas
    requires Dst(JobFor(s.files[f], q)) != s.files[f].objectKey
    ensures SavedOnce(s, f, q, port).files == s.files[f := Saved(Marked(s.files[f], q))] && SavedOnce(s, f, q, port).gone == s.gone
  {
    var rec := Marked(s.files[f], q);
    MarkedRename(s.files[f], q);
    AcceptedAssigns(s, f, q);
    hide Refusal, Marked, JobFor, Dst, Catalogued, Work, Enqueue, Saved;
    SavedRun(Put(s, f, rec), f, port);
  }

  /** If its handler will not know the job as done, the old key stays claimed. */
  lemma OldKeyClaimed(gone: set<string>, rec: Rec, q: Request)
    requires q.Rename? && GuardKey(JobFor(rec, q)) != Dst(JobFor(rec, q))
    ensures rec.objectKey in Claimed(gone, Saved(Marked(rec, q)))
  {
    MarkedRename(rec, q);
    hide Marked, JobFor, Dst, GuardKey, Claimed, Saved;
    SavedClaims(gone, Marked(rec, q));
  }

  lemma MarkedRename(rec: Rec, q: Request)
    requires q.Rename?
    ensures Marked(rec, q).job == Some(JobFor(rec, q)) && JobFor(rec, q).RenameJob? && Src(JobFor(rec, q)) == rec.objectKey
  {
    hide ServiceRenameKey, Trim;
  }

  lemma SavedClaims(gone: set<string>, rec: Rec)
    requires rec.job.Some? && rec.job.value.RenameJob? && GuardKey(rec.job.value) != Dst(rec.job.value)
    ensures Src(rec.job.value) in Claimed(gone, Saved(rec))
  {
    hide Dst, Src, GuardKey;
  }

  lemma SavedRun(s: State, f: FileId, port: Port)
    requires Movable(s, f) && s.files[f].status == SYNCING && !Postponed(s.files[f])
    requires Src(s.files[f].job.value) != Dst(s.files[f].job.value) && !Gone(s.gone, s.files[f].job.value)
    ensures Work(s, f, CrashAfter, port).files == s.files[f := Saved(s.files[f])]
    ensures Work(s, f, CrashAfter, port).gone == s.gone
  {
    hide Dst, Src, Shift;
  }

  lemma TwoFilesAre()
    ensures var s := TwoFiles();
            && s.files.Keys == {0, 1} && s.files[0] == Idle(A_DOC, X_KEY) && s.files[1] == Idle(B_DOC, Y_KEY)
            && X_KEY in s.nas && s.gone == {}
  {}

  lemma ToBKey()
    ensures var j := JobFor(Idle(A_DOC, X_KEY), TO_B); Dst(j) != X_KEY && Dst(j) != Y_KEY && GuardKey(j) != Dst(j)
  {
    assert "b.txt" == "b" + ".txt" && "b.txt" != "a.txt";
    assert KeyOf("/x", STAMP, "b.txt")[1] == 'x' && Y_KEY[1] == 'y';
    hide JobFor, Dst, GuardKey, KeyOf;
    RenamedKey("b");
  }

  lemma ToBAccepted()
    ensures Refusal(TwoFiles(), 0, TO_B).None?
  {
    assert "b.txt" == "b" + ".txt";
    hide Refusal;
    RenameAccepted(TwoFiles(), 0, "b");
  }

  lemma RenamedToB(port: Port)
    ensures var s := SavedOnce(TwoFiles(), 0, TO_B, port);
            && Inv(s) && s.files.Keys == {0, 1} && X_KEY in Claimed(s.gone, s.files[0])
            && s.files[0].doc.mimeType == "text/plain" && s.files[1] == Idle(B_DOC, Y_KEY) && s.gone == {}
  {
    var s := TwoFiles();
    TwoFilesAre();
    TwoFilesInv();
    ToBKey();
    ToBAccepted();
    hide Inv, Distinct, SavedOnce, Claimed, Refusal, JobFor, Dst, GuardKey, TwoFiles, X_KEY, Y_KEY, Trim;
    FreeOfOne(s, TO_B);
    SavedOnceInv(s, 0, TO_B, port);
    SavedOnceIs(s, 0, TO_B, port);
    OldKeyClaimed(s.gone, s.files[0], TO_B);
  }

  lemma FreeOfOne(s: State, q: Request)
    requires s.files.Keys == {0, 1} && s.files[1] == Idle(B_DOC, Y_KEY) && s.files[0] == Idle(A_DOC, X_KEY)
    requires q.Rename? && X_KEY != Y_KEY && Target(s, 0, q) != Y_KEY
    ensures Free(s, 0, q)
  {
    hide X_KEY, Y_KEY, RenameTarget, ServiceRenameKey, Trim;
  }

  lemma MoveBackAccepted(s: State)
    requires s.files.Keys == {0, 1} && s.files[1] == Idle(B_DOC, Y_KEY) && s.files[0].doc.mimeType == "text/plain"
    ensures Refusal(s, 1, TO_X).None? && Target(s, 1, TO_X) == X_KEY
  {
    MovedBack();
    hide MoveTarget, X_KEY, Y_KEY, NameRefusal, Trim;
  }

  lemma NotFree(s: State)
    requires Inv(s) && s.files.Keys == {0, 1} && X_KEY in Claimed(s.gone, s.files[0]) && Refusal(s, 1, TO_X).None?
    requires Target(s, 1, TO_X) == X_KEY && "X" !in s.gone
    ensures !Free(s, 1, TO_X)
  {
    FreeIsTarget(s, 1, TO_X);
    hide Claimed, Free, Inv, Target, Refusal, X_KEY;
    assert 0 in s.files;
  }

  lemma MovedBack()
    ensures MoveTarget("/x", Y_KEY) == X_KEY
  {
    assert '/' !in NAS_NAME;
    MoveKeepsBase("/y", NAS_NAME, "/x");
  }

  lemma ClashAtOldKey(s: State)
    requires Inv(s) && s.files.Keys == {0, 1} && X_KEY in Claimed(s.gone, s.files[0]) && s.gone == {}
    requires s.files[0].doc.mimeType == "text/plain" && s.files[1] == Idle(B_DOC, Y_KEY)
    ensures Refusal(s, 1, TO_X).None?
    ensures !(forall steps :: OnlyRuns(steps) ==> Sound(After(Enqueue(s, 1, TO_X), steps)))
  {
    hide Inv, Claimed, Sound, Enqueue, Refusal, Target, After, OnlyRuns, Free, X_KEY, Y_KEY;
    MoveBackAccepted(s);
    NotFree(s);
    FreeExact(s, 1, TO_X);
  }

  /** A rename, saved but to be delivered again: moving the other file to the old key is
      accepted, and some worker runs then lose bytes. */
  lemma RedeliveryClash(port: Port)
    ensures var s := SavedOnce(TwoFiles(), 0, TO_B, port);
            && Inv(s) && Refusal(s, 1, TO_X).None?
            && !(forall steps :: OnlyRuns(steps) ==> Sound(After(Enqueue(s, 1, TO_X), steps)))
  {
    hide Inv, SavedOnce, Claimed, Sound, Enqueue, Refusal, After, OnlyRuns, TwoFiles, X_KEY, Y_KEY;
    RenamedToB(port);
    ClashAtOldKey(SavedOnce(TwoFiles(), 0, TO_B, port));
  }

  // ------------------------------------------------------------------ a move that is taken back

  /** Two files that differ in their folders only; y has been trashed between the lookup of
      the first file's move to it and the transaction. */
  predicate Twins(s: State, d: Doc, z: string, y: string) {
    && s.files.Keys == {0, 1} && s.gone == {y} && d.state == ACTIVE && d.folder != z && d.folder != y && y != z
    && s.files[0].doc == d && s.files[1].doc == d.(folder := z)
    && s.files[0].status == AVAILABLE && s.files[1].status == AVAILABLE
  }

  function Into(folder: string, path: string): Request { Move(Some(Folder(folder, path))) }

  lemma MoveAccepted(s: State, f: FileId, folder: string, path: string)
    requires f in s.files && s.files[f].status == AVAILABLE && s.files[f].doc.state == ACTIVE
    requires forall g :: g in s.files ==> s.files[g].doc != s.files[f].doc.(folder := folder)
    ensures Refusal(s, f, Into(folder, path)).None?
    ensures Enqueue(s, f, Into(folder, path)) == Put(s, f, Marked(s.files[f], Into(folder, path)))
  {
    hide MoveTarget;
  }

  /** A move that will be taken back, while another file is at its old place. */
  lemma TakenBack(s: State, d: Doc, y: string, port: Port)
    requires Distinct(s) && s.files.Keys == {0, 1} && s.gone == {y} && d.state == ACTIVE
    requires s.files[0].status == SYNCING && s.files[0].doc.state == ACTIVE && s.files[0].doc.(folder := d.folder) == d && s.files[1].doc == d
    requires s.files[0].job.Some? && s.files[0].job.value.MoveJob? && s.files[0].job.value.originalFolder == d.folder && s.files[0].job.value.targetFolder == y
    ensures !Distinct(Work(s, 0, Complete, port))
  {
    RunDistinct(s, 0, Complete, port);
    hide Work, Distinct, Src, Dst, GuardKey;
    assert Reverted(s.files[0], Complete).doc == d;
  }

  lemma MarkedMove(rec: Rec, folder: string, path: string)
    ensures var rec2 := Marked(rec, Into(folder, path));
            && rec2.status == SYNCING && rec2.doc == rec.doc.(folder := folder)
            && rec2.job.Some? && rec2.job.value.MoveJob?
            && rec2.job.value.originalFolder == rec.doc.folder && rec2.job.value.targetFolder == folder
  {
    hide MoveTarget;
  }

  /** The first file moves to y, the second takes its place, both are accepted, and taking
      the move back makes the files duplicates. */
  lemma RevertDuplicates(s: State, d: Doc, z: string, y: string, path: string, port: Port)
    requires Twins(s, d, z, y)
    ensures var s1 := Enqueue(s, 0, Into(y, path));
            var s2 := Enqueue(s1, 1, Into(d.folder, path));
            && Refusal(s, 0, Into(y, path)).None? && Refusal(s1, 1, Into(d.folder, path)).None?
            && Distinct(s) && Distinct(s1) && Distinct(s2) && !Distinct(Work(s2, 0, Complete, port))
  {
    var q0, q1 := Into(y, path), Into(d.folder, path);
    assert d.(folder := z).folder == z;
    assert Distinct(s);
    hide Refusal, Enqueue, Marked, Work, Distinct, Into;
    MoveAccepted(s, 0, y, path);
    MarkedMove(s.files[0], y, path);
    AskedDistinct(s, 0, q0);
    var s1 := Enqueue(s, 0, q0);
    MoveAccepted(s1, 1, d.folder, path);
    MarkedMove(s1.files[1], d.folder, path);
    AskedDistinct(s1, 1, q1);
    TakenBack(Enqueue(s1, 1, q1), d, y, port);
  }
}
