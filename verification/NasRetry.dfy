/** One job delivered again and again: from which crash points the next run still ends where
    a single clean run does. */
module NasRetry {
  import opened Wrappers
  import opened JsStrings
  import opened NasNaming
  import opened NasSync
  import opened NasConflict

  /** Runs of one job, one after the other. */
  function Retries(s: State, f: FileId, modes: seq<RunMode>, port: Port): State
    decreases |modes|
  {
    if modes == [] then s else Retries(Work(s, f, modes[0], port), f, modes[1..], port)
  }

  /** The job waits, nothing has been moved yet, source and target differ, and a move's target
      folder is there. */
  ghost predicate Pending(s: State, f: FileId) {
    && Inv(s) && f in s.files && s.files[f].status == SYNCING && s.files[f].job.Some? && !Gone(s.gone, s.files[f].job.value)
    && Src(s.files[f].job.value) != Dst(s.files[f].job.value)
    && OnlyAt(s.nas, f, Src(s.files[f].job.value))
  }

  /** Every accepted request to another free key leads there. */
  lemma PendingFresh(s: State, f: FileId, q: Request)
    requires Inv(s) && Refusal(s, f, q).None? && Free(s, f, q) && Target(s, f, q) != s.files[f].objectKey
    requires q.Move? ==> q.folder.value.id !in s.gone
    ensures Pending(Enqueue(s, f, q), f)
  {
    EnqueueKeeps(s, f, q);
    AcceptedAssigns(s, f, q);
    Place(s, f);
    hide Refusal, RenameTarget, Catalogued, MoveTarget, TrashPath, ServiceRenameKey, Inv;
  }

  predicate Movable(s: State, f: FileId) {
    f in s.files && s.files[f].job.Some? && Src(s.files[f].job.value) in s.nas
  }

  lemma PendingMovable(s: State, f: FileId)
    requires Pending(s, f)
    ensures Movable(s, f) && Runs(s, f) && !Postponed(s.files[f])
  {
    hide RenameTarget;
    assert Located(s, f);
    assert Holds(s.nas, f, Src(s.files[f].job.value));
  }

  function Shifted(s: State, f: FileId): map<Key, FileId>
    requires Movable(s, f)
  {
    Shift(s.nas, Src(s.files[f].job.value), Dst(s.files[f].job.value))
  }

  /** How far the job has got: nothing done, copied on the NAS, moved on the NAS only, or
      record saved but the job not acknowledged. */
  datatype Phase = Waiting | Copied | MovedOnly | SavedOnly

  function At(s: State, f: FileId, phase: Phase): State
    requires Movable(s, f)
  {
    match phase
    case Waiting => s
    case Copied => s.(nas := s.nas[Dst(s.files[f].job.value) := s.nas[Src(s.files[f].job.value)]])
    case MovedOnly => s.(nas := Shifted(s, f))
    case SavedOnly => State(s.files[f := Saved(s.files[f])], Shifted(s, f), s.gone)
  }

  /** What one clean run leaves. */
  function Clean(s: State, f: FileId): State
    requires Movable(s, f)
  {
    State(s.files[f := Acknowledged(Saved(s.files[f]))], Shifted(s, f), s.gone)
  }

  function Advance(phase: Phase, mode: RunMode, port: Port): Phase {
    if phase == Waiting || phase == Copied then
      (match mode case CrashBefore => phase case CrashInCopy => Copied case CrashBetween => MovedOnly case _ => SavedOnly)
    else if phase == MovedOnly && port == WithErrno && mode == CrashAfter then SavedOnly
    else phase
  }

  predicate Finishes(phase: Phase, j: Job, port: Port) {
    port == WithErrno || phase == Waiting || phase == Copied || (phase == SavedOnly && GuardKey(j) == Dst(j))
  }

  lemma SourceGone(s: State, f: FileId)
    requires Pending(s, f)
    ensures Movable(s, f) && Src(s.files[f].job.value) !in Shifted(s, f)
  {
    hide RenameTarget, Inv;
    PendingMovable(s, f);
  }

  /** A copy is overwritten by the next attempt. */
  lemma CopiedShift(nas: map<Key, FileId>, src: Key, dst: Key)
    requires src in nas && src != dst
    ensures Shift(nas[dst := nas[src]], src, dst) == Shift(nas, src, dst)
    ensures nas[dst := nas[src]][dst := nas[src]] == nas[dst := nas[src]]
  {}

  lemma SavedAgain(rec: Rec)
    requires rec.job.Some?
    ensures Saved(Saved(rec)) == Saved(rec)
    ensures Guarded(Saved(rec)) <==> GuardKey(rec.job.value) == Dst(rec.job.value)
    ensures !Guarded(Saved(rec)) ==> !Postponed(Saved(rec))
  {
    hide RenameTarget;
  }

  /** A run on a record whose key is the target already and whose source key is gone. */
  lemma WorkSettled(t: State, f: FileId, mode: RunMode, port: Port)
    requires f in t.files && t.files[f].job.Some? && Saved(t.files[f]) == t.files[f] && Src(t.files[f].job.value) !in t.nas
    requires !Gone(t.gone, t.files[f].job.value)
    requires !Guarded(t.files[f]) ==> !Postponed(t.files[f])
    ensures Work(t, f, mode, port) ==
            if mode == Complete && (port == WithErrno || Guarded(t.files[f])) then Put(t, f, Acknowledged(t.files[f])) else t
  {
    hide Guarded, Gone, Postponed, Dst, Src, Saved;
    assert t.files[f := t.files[f]] == t.files;
  }

  lemma WorkSaved(t: State, f: FileId, rec: Rec, mode: RunMode, port: Port)
    requires f in t.files && rec.job.Some? && t.files[f] == Saved(rec) && Src(rec.job.value) !in t.nas && !Gone(t.gone, rec.job.value)
    ensures Work(t, f, mode, port) ==
            if mode == Complete && (port == WithErrno || GuardKey(rec.job.value) == Dst(rec.job.value))
            then Put(t, f, Acknowledged(Saved(rec))) else t
  {
    hide Work, Dst, Gone;
    SavedAgain(rec);
    WorkSettled(t, f, mode, port);
  }

  lemma WorkRuns(s: State, f: FileId, mode: RunMode, port: Port)
    requires Runs(s, f) && !Postponed(s.files[f])
    ensures Work(s, f, mode, port) == Carry(s, f, mode, Attempt(s.nas, Src(s.files[f].job.value), Dst(s.files[f].job.value), port))
  {
    hide Guarded, Gone, Postponed, Dst, Src, Attempt;
  }

  lemma CarryMoved(s: State, f: FileId, mode: RunMode)
    requires Movable(s, f)
    ensures Carry(s, f, mode, Moved) ==
            match mode case CrashBefore => s case CrashInCopy => At(s, f, Copied)
                       case CrashBetween => At(s, f, MovedOnly) case CrashAfter => At(s, f, SavedOnly) case Complete => Clean(s, f)
  {
    hide Dst, Src, Saved, Acknowledged, Shift;
  }

  /** Before the move, a run goes as far as it gets. */
  lemma WorkWaiting(s: State, f: FileId, mode: RunMode, port: Port)
    requires Pending(s, f)
    ensures Movable(s, f)
    ensures Work(s, f, mode, port) ==
            match mode case CrashBefore => s case CrashInCopy => At(s, f, Copied)
                       case CrashBetween => At(s, f, MovedOnly) case CrashAfter => At(s, f, SavedOnly) case Complete => Clean(s, f)
  {
    PendingMovable(s, f);
    WorkRuns(s, f, mode, port);
    assert Attempt(s.nas, Src(s.files[f].job.value), Dst(s.files[f].job.value), port) == Moved;
    CarryMoved(s, f, mode);
    hide Work, Carry, At, Clean, Inv, Pending, Runs, Shift, Movable, Attempt, Dst, Src;
  }

  lemma CarryCopied(s: State, f: FileId, mode: RunMode)
    requires Movable(s, f) && Src(s.files[f].job.value) != Dst(s.files[f].job.value)
    ensures mode != CrashBefore ==> Carry(At(s, f, Copied), f, mode, Moved) == Carry(s, f, mode, Moved)
  {
    CopiedShift(s.nas, Src(s.files[f].job.value), Dst(s.files[f].job.value));
    hide Shift, Dst, Src, Saved, Acknowledged;
  }

  /** A run from the middle of a copy goes as from the start. */
  lemma WorkCopied(s: State, f: FileId, mode: RunMode, port: Port)
    requires Pending(s, f)
    ensures Movable(s, f) && (mode != CrashBefore ==> Work(At(s, f, Copied), f, mode, port) == Work(s, f, mode, port))
  {
    PendingMovable(s, f);
    WorkRuns(s, f, mode, port);
    WorkRuns(At(s, f, Copied), f, mode, port);
    CarryCopied(s, f, mode);
    hide Work, Carry, Inv, Pending, Shift, Dst, Src;
  }

  lemma MovedAttempt(s: State, f: FileId, port: Port)
    requires Pending(s, f)
    ensures Movable(s, f)
    ensures Attempt(Shifted(s, f), Src(s.files[f].job.value), Dst(s.files[f].job.value), port) ==
            if port == NfsAdapter then Failed else AlreadyDone
  {
    SourceGone(s, f);
    hide Pending, Shift, Shifted, Dst, Src;
  }

  lemma CarryDone(t: State, f: FileId, mode: RunMode)
    requires f in t.files && t.files[f].job.Some?
    ensures Carry(t, f, mode, Failed) == t
    ensures Carry(t, f, mode, AlreadyDone) ==
            match mode case CrashAfter => Put(t, f, Saved(t.files[f])) case Complete => Put(t, f, Acknowledged(Saved(t.files[f]))) case _ => t
  {
    hide Dst, Src, Saved, Acknowledged, Put, Shift;
  }

  /** A run after the move, before the save. */
  lemma WorkMoved(s: State, f: FileId, mode: RunMode, port: Port)
    requires Pending(s, f)
    ensures Movable(s, f)
    ensures Work(At(s, f, MovedOnly), f, mode, port) ==
            if port == NfsAdapter then At(s, f, MovedOnly)
            else match mode case CrashAfter => At(s, f, SavedOnly) case Complete => Clean(s, f) case _ => At(s, f, MovedOnly)
  {
    PendingMovable(s, f);
    MovedAttempt(s, f, port);
    WorkRuns(At(s, f, MovedOnly), f, mode, port);
    CarryDone(At(s, f, MovedOnly), f, mode);
    hide Work, Carry, Inv, Pending, Runs, Shift, Shifted, Movable, Attempt, Dst, Src, Saved, Acknowledged;
  }

  lemma PhaseStep(s: State, f: FileId, phase: Phase, mode: RunMode, port: Port)
    requires Pending(s, f) && mode != Complete
    ensures Movable(s, f) && Work(At(s, f, phase), f, mode, port) == At(s, f, Advance(phase, mode, port))
  {
    PendingMovable(s, f);
    SourceGone(s, f);
    hide Pending, Inv, Work, Shift, Dst, Src, Saved, Acknowledged;
    match phase
    case Waiting => WorkWaiting(s, f, mode, port);
    case Copied => WorkCopied(s, f, mode, port); WorkWaiting(s, f, mode, port);
    case MovedOnly => WorkMoved(s, f, mode, port);
    case SavedOnly => WorkSaved(At(s, f, SavedOnly), f, s.files[f], mode, port);
  }

  lemma CompleteStep(s: State, f: FileId, phase: Phase, port: Port)
    requires Pending(s, f)
    ensures Movable(s, f)
    ensures Work(At(s, f, phase), f, Complete, port) ==
            if Finishes(phase, s.files[f].job.value, port) then Clean(s, f) else At(s, f, phase)
  {
    PendingMovable(s, f);
    SourceGone(s, f);
    hide Pending, Inv, Work, Shift, Dst, Src, Saved, Acknowledged;
    match phase
    case Waiting => WorkWaiting(s, f, Complete, port);
    case Copied => WorkCopied(s, f, Complete, port); WorkWaiting(s, f, Complete, port);
    case MovedOnly => WorkMoved(s, f, Complete, port);
    case SavedOnly => WorkSaved(At(s, f, SavedOnly), f, s.files[f], Complete, port);
  }

  predicate Unfinished(modes: seq<RunMode>) {
    forall i :: 0 <= i < |modes| ==> modes[i] != Complete
  }

  lemma UnfinishedTail(modes: seq<RunMode>)
    requires Unfinished(modes) && modes != []
    ensures modes[0] != Complete && Unfinished(modes[1..])
  {
    forall i | 0 <= i < |modes[1..]| ensures modes[1..][i] != Complete { assert modes[1..][i] == modes[i + 1]; }
  }

  function PhaseAfter(phase: Phase, modes: seq<RunMode>, port: Port): Phase
    decreases |modes|
  {
    if modes == [] then phase else PhaseAfter(Advance(phase, modes[0], port), modes[1..], port)
  }

  lemma {:induction false} PhaseRetries(s: State, f: FileId, phase: Phase, modes: seq<RunMode>, port: Port)
    requires Pending(s, f) && Unfinished(modes)
    ensures Movable(s, f) && Retries(At(s, f, phase), f, modes, port) == At(s, f, PhaseAfter(phase, modes, port))
    decreases |modes|
  {
    PendingMovable(s, f);
    hide Pending, Movable, Work, At, Advance;
    if modes != [] {
      UnfinishedTail(modes);
      PhaseStep(s, f, phase, modes[0], port);
      PhaseRetries(s, f, Advance(phase, modes[0], port), modes[1..], port);
    }
  }

  /** The first run that got past the NAS move, or CrashBefore. */
  function FirstEffect(modes: seq<RunMode>): RunMode {
    if modes == [] then CrashBefore
    else if modes[0] == CrashBefore || modes[0] == CrashInCopy then FirstEffect(modes[1..])
    else modes[0]
  }

  predicate SourceKept(phase: Phase) { phase == Waiting || phase == Copied }

  /** Through the NFS adapter only the first run that got past the NAS move counts. */
  lemma {:induction false} NfsPhase(phase: Phase, modes: seq<RunMode>)
    ensures !SourceKept(phase) ==> PhaseAfter(phase, modes, NfsAdapter) == phase
    ensures SourceKept(phase) ==>
              var end := PhaseAfter(phase, modes, NfsAdapter);
              if FirstEffect(modes) == CrashBefore then SourceKept(end)
              else end == if FirstEffect(modes) == CrashBetween then MovedOnly else SavedOnly
    decreases |modes|
  {
    if modes != [] { NfsPhase(Advance(phase, modes[0], NfsAdapter), modes[1..]); }
  }

  lemma {:induction false} RetriesAppend(s: State, f: FileId, modes: seq<RunMode>, port: Port)
    ensures Retries(s, f, modes + [Complete], port) == Work(Retries(s, f, modes, port), f, Complete, port)
    decreases |modes|
  {
    hide Work;
    if modes == [] {
      assert modes + [Complete] == [Complete] && [Complete][1..] == [];
      assert Retries(Work(s, f, Complete, port), f, [], port) == Work(s, f, Complete, port);
    } else {
      assert (modes + [Complete])[1..] == modes[1..] + [Complete];
      RetriesAppend(Work(s, f, modes[0], port), f, modes[1..], port);
    }
  }

  lemma NotClean(s: State, f: FileId, phase: Phase)
    requires Pending(s, f)
    ensures Movable(s, f) && At(s, f, phase) != Clean(s, f)
  {
    PendingMovable(s, f);
    hide RenameTarget, Inv, Shift;
    assert At(s, f, phase).files[f].job.Some? && Clean(s, f).files[f].job.None?;
  }

  /** Main result 3: any number of interrupted runs and one more end in the state of one
      clean run iff the port reports ENOENT, or no interrupted run got past the NAS move, or
      the first that did saved the record under the key by which the handler knows a finished
      job. */
  lemma RetryExact(s: State, f: FileId, modes: seq<RunMode>, port: Port)
    requires Pending(s, f) && Unfinished(modes)
    ensures Movable(s, f) && Work(s, f, Complete, port) == Clean(s, f)
    ensures var j := s.files[f].job.value;
            Retries(s, f, modes + [Complete], port) == Clean(s, f) <==>
            || port == WithErrno
            || FirstEffect(modes) == CrashBefore
            || (FirstEffect(modes) == CrashAfter && GuardKey(j) == Dst(j))
  {
    PendingMovable(s, f);
    RetriesAppend(s, f, modes, port);
    PhaseRetries(s, f, Waiting, modes, port);
    var phase := PhaseAfter(Waiting, modes, port);
    CompleteStep(s, f, Waiting, port);
    CompleteStep(s, f, phase, port);
    NotClean(s, f, phase);
    NfsPhase(Waiting, modes);
    FirstEffectKind(modes);
    assert At(s, f, Waiting) == s;
    hide Pending, Work, Clean, Retries, Dst, PhaseAfter, FirstEffect;
  }

  lemma {:induction false} FirstEffectKind(modes: seq<RunMode>)
    requires Unfinished(modes)
    ensures FirstEffect(modes) !in {CrashInCopy, Complete}
  {
    if modes != [] {
      UnfinishedTail(modes);
      FirstEffectKind(modes[1..]);
    }
  }

  /** A job that cannot finish is run in vain forever. */
  lemma {:induction false} InVain(s: State, f: FileId, phase: Phase, later: seq<RunMode>)
    requires Pending(s, f) && !Finishes(phase, s.files[f].job.value, NfsAdapter)
    ensures Movable(s, f) && Retries(At(s, f, phase), f, later, NfsAdapter) == At(s, f, phase)
    decreases |later|
  {
    PendingMovable(s, f);
    if later != [] {
      if later[0] == Complete { CompleteStep(s, f, phase, NfsAdapter); } else { PhaseStep(s, f, phase, later[0], NfsAdapter); }
      assert later[0] != Complete ==> Advance(phase, later[0], NfsAdapter) == phase;
      hide Pending, Work, At, Advance, Dst;
      InVain(s, f, phase, later[1..]);
    }
  }

  /** Through the NFS adapter, after a crash between move and save no further run completes:
      the record stays SYNCING, so every later rename, move or delete is refused. */
  lemma StuckForever(s: State, f: FileId, modes: seq<RunMode>, later: seq<RunMode>, q: Request)
    requires Pending(s, f) && Unfinished(modes) && FirstEffect(modes) == CrashBetween
    ensures var s2 := Retries(Retries(s, f, modes, NfsAdapter), f, later, NfsAdapter);
            f in s2.files && s2.files[f] == s.files[f] && Refusal(s2, f, q).Some?
  {
    PendingMovable(s, f);
    PhaseRetries(s, f, Waiting, modes, NfsAdapter);
    NfsPhase(Waiting, modes);
    InVain(s, f, MovedOnly, later);
    SyncingRefused(At(s, f, MovedOnly), f, q);
    hide Inv, Refusal, Retries, RenameTarget;
  }

  lemma SyncingRefused(s: State, f: FileId, q: Request)
    requires f in s.files && s.files[f].status == SYNCING
    ensures Refusal(s, f, q).Some?
  {
    hide Duplicate, NameRefusal, Trim;
  }

  /** After a save without acknowledgement the record is right; a job whose guard misses is
      nevertheless delivered again in vain for good. */
  lemma RedeliveredForever(s: State, f: FileId, modes: seq<RunMode>, later: seq<RunMode>)
    requires Pending(s, f) && Unfinished(modes) && FirstEffect(modes) == CrashAfter
    requires var j := s.files[f].job.value; GuardKey(j) != Dst(j)
    ensures var s2 := Retries(Retries(s, f, modes, NfsAdapter), f, later, NfsAdapter);
            Movable(s, f) && s2.nas == Clean(s, f).nas && f in s2.files
            && s2.files[f] == Clean(s, f).files[f].(job := s.files[f].job)
  {
    PendingMovable(s, f);
    PhaseRetries(s, f, Waiting, modes, NfsAdapter);
    NfsPhase(Waiting, modes);
    InVain(s, f, SavedOnly, later);
    hide Inv, Retries, RenameTarget, Shift;
  }

  /** The handlers' guards: move and trash always recognise their finished job, a rename only
      if the key has no directory. */
  lemma GuardExact(rec: Rec, dir: string, timestamp: string, name: string, q: Request)
    requires CleanDir(dir) && CleanTimestamp(timestamp) && |timestamp| == TIMESTAMP_LENGTH && '/' !in name && Known(q)
    requires rec.objectKey == KeyOf(dir, timestamp, name)
    requires q.Rename? ==> Trim(q.newName) != "" && '/' !in Trim(q.newName)
    ensures GuardKey(JobFor(rec, q)) == Dst(JobFor(rec, q)) <==> !q.Rename? || dir == "."
  {
    if q.Rename? { ServiceKeyFinal(dir, timestamp, name, Trim(q.newName)); }
    hide RenameTarget, ServiceRenameKey, MoveTarget, TrashPath, KeyOf, Trim;
  }

  /** A job whose source and target are one key. */
  predicate SameKeys(s: State, f: FileId) {
    && f in s.files && s.files[f].status == SYNCING && s.files[f].job.Some? && !Gone(s.gone, s.files[f].job.value)
    && Src(s.files[f].job.value) == Dst(s.files[f].job.value)
  }

  lemma SameKeyStep(s: State, f: FileId, mode: RunMode)
    requires SameKeys(s, f)
    ensures Work(s, f, mode, NfsAdapter) == s
  {
    hide RenameTarget;
  }

  lemma SameKeyDone(s: State, f: FileId)
    requires Inv(s) && SameKeys(s, f)
    ensures Work(s, f, Complete, WithErrno).files[f].status == AVAILABLE
  {
    InvLocated(s, f);
    WorkRuns(s, f, Complete, WithErrno);
    hide RenameTarget, Inv, Work;
  }

  /** A rename to the same name gives a job whose keys are equal; the NFS adapter never
      finishes it, a port without locking finishes it at once. */
  lemma {:induction false} SameKeyJob(s: State, f: FileId, modes: seq<RunMode>)
    requires Inv(s) && SameKeys(s, f)
    ensures Retries(s, f, modes, NfsAdapter) == s && Work(s, f, Complete, WithErrno).files[f].status == AVAILABLE
    decreases |modes|
  {
    SameKeyDone(s, f);
    hide Work, Inv, SameKeys;
    if modes != [] {
      SameKeyStep(s, f, modes[0]);
      SameKeyJob(s, f, modes[1..]);
    }
  }

  // ------------------------------------------------------------------ taking a move back

  /** A move that is to be taken back. */
  ghost predicate Doomed(s: State, f: FileId) {
    && Inv(s) && f in s.files && s.files[f].status == SYNCING && s.files[f].job.Some? && Gone(s.gone, s.files[f].job.value)
  }

  /** How far the taking back has got. */
  predicate PartlyReverted(rec: Rec, now: Rec) {
    rec.job.Some? && rec.job.value.MoveJob? && now in {rec, Reverted(rec, CrashBetween), Reverted(rec, CrashAfter)}
  }

  lemma RevertStep(rec: Rec, now: Rec, mode: RunMode)
    requires PartlyReverted(rec, now) && rec.status == SYNCING && rec.doc.state == ACTIVE
    ensures now.job == rec.job
    ensures mode != Complete ==> PartlyReverted(rec, Reverted(now, mode))
    ensures Reverted(now, Complete) == Reverted(rec, Complete)
    ensures now.status == AVAILABLE ==> Acknowledged(now) == Reverted(rec, Complete)
  {}

  lemma WorkGone(s: State, f: FileId, mode: RunMode, port: Port)
    requires f in s.files && s.files[f].job.Some? && Gone(s.gone, s.files[f].job.value)
    ensures Work(s, f, mode, port) ==
            Put(s, f, if Guarded(s.files[f]) then (if mode == Complete then Acknowledged(s.files[f]) else s.files[f])
                      else Reverted(s.files[f], mode))
  {
    assert Put(s, f, s.files[f]) == s;
    hide Guarded, Acknowledged, Attempt, Carry;
  }

  lemma DoomedWork(s: State, f: FileId, now: Rec, mode: RunMode, port: Port) returns (next: Rec)
    requires Doomed(s, f) && PartlyReverted(s.files[f], now)
    ensures Work(Put(s, f, now), f, mode, port) == Put(s, f, next)
    ensures if mode == Complete then next == Reverted(s.files[f], Complete) else PartlyReverted(s.files[f], next)
  {
    InvLocated(s, f);
    RevertStep(s.files[f], now, mode);
    WorkGone(Put(s, f, now), f, mode, port);
    next := if Guarded(now) then (if mode == Complete then Acknowledged(now) else now) else Reverted(now, mode);
    assert Guarded(now) ==> now.status == AVAILABLE;
    hide Inv, Located, Reverted, PartlyReverted, Acknowledged, Work, Guarded;
  }

  lemma {:induction false} DoomedRetries(s: State, f: FileId, now: Rec, modes: seq<RunMode>, port: Port) returns (next: Rec)
    requires Doomed(s, f) && PartlyReverted(s.files[f], now) && Unfinished(modes)
    ensures PartlyReverted(s.files[f], next) && Retries(Put(s, f, now), f, modes, port) == Put(s, f, next)
    decreases |modes|
  {
    next := now;
    if modes != [] {
      UnfinishedTail(modes);
      var first := DoomedWork(s, f, now, modes[0], port);
      hide Doomed, Work, PartlyReverted;
      next := DoomedRetries(s, f, first, modes[1..], port);
    }
  }

  /** A move whose target folder has gone is taken back through either port, however many
      interrupted runs come before: catalogue and record are as before the request. */
  lemma RevertExact(s: State, f: FileId, modes: seq<RunMode>, port: Port)
    requires Doomed(s, f) && Unfinished(modes)
    ensures var rec := s.files[f];
            Retries(s, f, modes + [Complete], port) ==
            Put(s, f, Rec(rec.doc.(folder := rec.job.value.originalFolder), Src(rec.job.value), AVAILABLE, rec.leaseCount, None))
  {
    InvLocated(s, f);
    assert Put(s, f, s.files[f]) == s;
    var now := DoomedRetries(s, f, s.files[f], modes, port);
    RetriesAppend(s, f, modes, port);
    var next := DoomedWork(s, f, now, Complete, port);
    hide Inv, Retries, Work;
  }
}
