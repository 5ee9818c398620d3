/** Two files on their way to one key: which requests are harmless. */
module NasConflict {
  import opened Wrappers
  import opened NasNaming
  import opened NasSync

  predicate OnlyRuns(steps: seq<Step>) {
    forall i :: 0 <= i < |steps| ==> steps[i].Run?
  }

  /** One complete run of a job whose source stands on the NAS. */
  lemma CompleteRun(s: State, f: FileId, port: Port)
    requires Runs(s, f) && !Postponed(s.files[f])
    requires Src(s.files[f].job.value) in s.nas && Src(s.files[f].job.value) != Dst(s.files[f].job.value)
    ensures var j, rec := s.files[f].job.value, s.files[f];
            Work(s, f, Complete, port) == State(s.files[f := Acknowledged(Saved(rec))], Shift(s.nas, Src(j), Dst(j)), s.gone)
  {
    hide RenameTarget;
  }

  /** What moving f to dst does: f is there only, and whatever stood there is gone. */
  lemma Replaced(nas: map<Key, FileId>, f: FileId, src: Key, dst: Key)
    requires OnlyAt(nas, f, src) && src != dst
    ensures src in nas && OnlyAt(Shift(nas, src, dst), f, dst)
    ensures forall g, k :: g != f ==> (Holds(Shift(nas, src, dst), g, k) <==> Holds(nas, g, k) && k != dst)
  {
    assert Holds(nas, f, src);
    forall l ensures Holds(Shift(nas, src, dst), f, l) <==> l == dst { assert Holds(nas, f, l) <==> l == src; }
    forall g, k | g != f ensures Holds(Shift(nas, src, dst), g, k) <==> Holds(nas, g, k) && k != dst {}
  }

  /** Running f's fresh job to its end puts f at its target, over whatever stood there. */
  lemma CompleteFresh(s: State, f: FileId, rec2: Rec, dst: Key, port: Port)
    requires Inv(s) && f in s.files && Assigned(s.files[f], rec2) && !Gone(s.gone, rec2.job.value)
    requires dst == Dst(rec2.job.value) && dst != s.files[f].objectKey
    ensures OnlyAt(s.nas, f, s.files[f].objectKey) && s.files[f].objectKey in s.nas
    ensures var s1 := Work(Put(s, f, rec2), f, Complete, port);
            && s1.files.Keys == s.files.Keys && s1.gone == s.gone
            && (forall g :: g in s.files && g != f ==> s1.files[g] == s.files[g])
            && s1.nas == Shift(s.nas, s.files[f].objectKey, dst)
  {
    hide RenameTarget, Inv;
    Place(s, f);
    assert Holds(s.nas, f, s.files[f].objectKey);
    CompleteRun(Put(s, f, rec2), f, port);
  }

  lemma Lost(s: State, h: FileId)
    requires h in s.files && forall k :: !Holds(s.nas, h, k)
    ensures !Sound(s)
  {}

  /** A file that claims a key and stands at another has a job that will run. */
  lemma StillToRun(s: State, g: FileId, dst: Key, at: Key)
    requires Inv(s) && g in s.files && dst in Claimed(s.gone, s.files[g]) && Holds(s.nas, g, at) && at != dst
    ensures Runs(s, g) && !Postponed(s.files[g])
    ensures {at, dst} == {Src(s.files[g].job.value), Dst(s.files[g].job.value)}
    ensures forall k :: Holds(s.nas, g, k) ==> k in {at, dst}
  {
    hide RenameTarget;
    Place(s, g);
    assert Located(s, g);
  }

  /** One file's run ends on the other's only place. */
  lemma Overrun(nas: map<Key, FileId>, x: FileId, y: FileId, a: Key, b: Key)
    requires OnlyAt(nas, x, a) && OnlyAt(nas, y, b) && x != y && a != b
    ensures a in nas && forall k :: !Holds(Shift(nas, a, b), y, k)
  {
    Replaced(nas, x, a, b);
    forall k ensures !Holds(Shift(nas, a, b), y, k) { assert Holds(nas, y, k) <==> k == b; }
  }

  /** After f has been put at one of g's keys, with g left at the other, g's own run
      overwrites f's bytes or takes them over its own. */
  lemma SecondRun(s: State, s1: State, f: FileId, g: FileId, dst: Key, at: Key, port: Port)
    requires Inv(s) && f in s.files && g in s.files && f != g && at != dst
    requires s1.files.Keys == s.files.Keys && s1.files[g] == s.files[g] && s1.gone == s.gone
    requires dst in Claimed(s.gone, s.files[g]) && Holds(s.nas, g, at)
    requires OnlyAt(s1.nas, f, dst) && OnlyAt(s1.nas, g, at)
    ensures !Sound(Work(s1, g, Complete, port))
  {
    StillToRun(s, g, dst, at);
    var j := s.files[g].job.value;
    assert Holds(s1.nas, f, dst) && Holds(s1.nas, g, at);
    hide RenameTarget, Inv, Guarded, Gone, Postponed, Sound, Src, Dst;
    CompleteRun(s1, g, port);
    hide Work;
    if dst == Dst(j) {
      Overrun(s1.nas, g, f, at, dst);
      Lost(Work(s1, g, Complete, port), f);
    } else {
      Overrun(s1.nas, f, g, dst, at);
      Lost(Work(s1, g, Complete, port), g);
    }
  }

  lemma AfterOne(s: State, a: Step)
    ensures After(s, [a]) == Next(s, a)
  {
    assert [a][1..] == [];
  }

  lemma AfterTwo(s: State, a: Step, b: Step)
    ensures After(s, [a, b]) == Next(Next(s, a), b)
  {
    assert [a, b][1..] == [b];
    AfterOne(Next(s, a), b);
  }

  /** A claim that meets another file's is that of a job that moves, at its far end. */
  lemma MeetsAtTarget(s: State, f: FileId, g: FileId, rec2: Rec, k: Key)
    requires Inv(s) && f in s.files && Assigned(s.files[f], rec2) && g in s.files && g != f
    requires k in Claimed(s.gone, rec2) && k in Claimed(s.gone, s.files[g])
    ensures !Gone(s.gone, rec2.job.value) && k == Dst(rec2.job.value) != s.files[f].objectKey
  {
    hide RenameTarget;
    Place(s, f);
    OwnKeys(s, f);
  }

  /** f's run, and what it leaves of g. */
  lemma FirstRun(s: State, f: FileId, g: FileId, rec2: Rec, dst: Key, port: Port)
    requires Inv(s) && f in s.files && Assigned(s.files[f], rec2) && g in s.files && g != f
    requires dst in Claimed(s.gone, rec2) && dst in Claimed(s.gone, s.files[g])
    ensures var s1 := Work(Put(s, f, rec2), f, Complete, port);
            && s1.files.Keys == s.files.Keys && s1.files[g] == s.files[g] && s1.gone == s.gone && OnlyAt(s1.nas, f, dst)
            && forall k :: Holds(s1.nas, g, k) <==> Holds(s.nas, g, k) && k != dst
  {
    MeetsAtTarget(s, f, g, rec2, dst);
    hide RenameTarget, Inv, Work, Claimed, Assigned, Gone;
    CompleteFresh(s, f, rec2, dst, port);
    Replaced(s.nas, f, s.files[f].objectKey, dst);
  }

  lemma TwoRuns(s: State, s1: State, f: FileId, g: FileId, dst: Key, at: Key, port: Port)
    requires Inv(s) && f in s.files && g in s.files && f != g
    requires s1.files.Keys == s.files.Keys && s1.files[g] == s.files[g] && s1.gone == s.gone && OnlyAt(s1.nas, f, dst)
    requires dst in Claimed(s.gone, s.files[g]) && Holds(s1.nas, g, at)
    requires forall k :: Holds(s1.nas, g, k) <==> Holds(s.nas, g, k) && k != dst
    ensures !Sound(Work(s1, g, Complete, port))
  {
    StillToRun(s, g, dst, at);
    hide Inv, Claimed, Work, Sound;
    assert OnlyAt(s1.nas, g, at);
    SecondRun(s, s1, f, g, dst, at, port);
  }

  /** Going to a key another file claims can lose bytes by worker runs alone. */
  lemma TakenIsUnsound(s: State, f: FileId, g: FileId, rec2: Rec, dst: Key, port: Port) returns (steps: seq<Step>)
    requires Inv(s) && f in s.files && Assigned(s.files[f], rec2) && g in s.files && g != f
    requires dst in Claimed(s.gone, rec2) && dst in Claimed(s.gone, s.files[g])
    ensures OnlyRuns(steps) && !Sound(After(Put(s, f, rec2), steps))
  {
    hide Inv, Work, Sound, Claimed, Assigned, OnlyAt;
    var first, second := Run(f, Complete, port), Run(g, Complete, port);
    FirstRun(s, f, g, rec2, dst, port);
    var s1 := Work(Put(s, f, rec2), f, Complete, port);
    if at :| Holds(s1.nas, g, at) {
      TwoRuns(s, s1, f, g, dst, at, port);
      AfterTwo(Put(s, f, rec2), first, second);
      steps := [first, second];
    } else {
      Lost(s1, g);
      AfterOne(Put(s, f, rec2), first);
      steps := [first];
    }
  }

  lemma {:induction false} OnlyRunsCareful(s: State, steps: seq<Step>)
    requires OnlyRuns(steps)
    ensures CarefulRun(s, steps)
    decreases |steps|
  {
    if steps != [] {
      forall i | 0 <= i < |steps[1..]| ensures steps[1..][i].Run? { assert steps[1..][i] == steps[i + 1]; }
      OnlyRunsCareful(Next(s, steps[0]), steps[1..]);
    }
  }

  /** Main result 2: a request is harmless whatever the workers do next iff no other file
      claims a key that it claims. */
  lemma FreeExact(s: State, f: FileId, q: Request)
    requires Inv(s) && Refusal(s, f, q).None?
    ensures (forall steps :: OnlyRuns(steps) ==> Sound(After(Enqueue(s, f, q), steps))) <==> Free(s, f, q)
  {
    hide Refusal, Inv, Sound, Enqueue, Marked, Claimed, Assigned;
    if Free(s, f, q) {
      EnqueueKeeps(s, f, q);
      forall steps | OnlyRuns(steps) ensures Sound(After(Enqueue(s, f, q), steps)) {
        OnlyRunsCareful(Enqueue(s, f, q), steps);
        RunsAreSound(Enqueue(s, f, q), steps);
      }
    } else {
      AcceptedAssigns(s, f, q);
      var rec2 := Marked(s.files[f], q);
      var g :| g in s.files && g != f && !(Claimed(s.gone, s.files[g]) !! Claimed(s.gone, rec2));
      var k :| k in Claimed(s.gone, s.files[g]) && k in Claimed(s.gone, rec2);
      var steps := TakenIsUnsound(s, f, g, rec2, k, WithErrno);
    }
  }

  /** In terms of the target key: a move whose folder is in the trash already is harmless,
      any other request iff no other file claims its target. */
  lemma FreeIsTarget(s: State, f: FileId, q: Request)
    requires Inv(s) && Refusal(s, f, q).None?
    ensures Free(s, f, q) <==>
            || (q.Move? && q.folder.value.id in s.gone)
            || forall g :: g in s.files && g != f ==> Target(s, f, q) !in Claimed(s.gone, s.files[g])
  {
    hide Refusal, RenameTarget, MoveTarget, TrashPath, ServiceRenameKey;
    AcceptedAssigns(s, f, q);
    Place(s, f);
    OwnKeys(s, f);
  }
}
