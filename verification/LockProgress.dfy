/** Deadlock freedom of the lock manager, and the exact condition under which a call can
    get all its locks at all: its keys are pairwise distinct. */
module LockProgress {
  import opened JsStrings
  import opened LockTable
  import opened LockProtocol
  import opened LockSafety

  // ------------------------------------------------------------------ sorted scripts

  ghost predicate SortedKeys(ks: seq<Key>) {
    forall i, j :: 0 <= i < j < |ks| ==> !Less(ks[j], ks[i])
  }

  ghost predicate NoRepeats(ks: seq<Key>) {
    forall i, j :: 0 <= i < j < |ks| ==> ks[i] != ks[j]
  }

  lemma LeastFirst(k: Key, ks: seq<Key>, j: nat)
    requires SortedKeys(ks) && j < |ks| && (Less(k, ks[0]) || k == ks[0])
    ensures !Less(ks[j], k)
  {
    LessIrreflexive(k);
    if Less(ks[j], k) {
      if Less(k, ks[0]) { LessTransitive(ks[j], k, ks[0]); }
      assert j == 0;
      LessTransitive(k, ks[0], k);
    }
  }

  lemma {:induction false} InsertSorts(k: Key, ks: seq<Key>)
    requires SortedKeys(ks)
    ensures SortedKeys(Insert(k, ks)) && multiset(Insert(k, ks)) == multiset(ks) + multiset{k}
  {
    if ks == [] {
    } else if Less(k, ks[0]) || k == ks[0] {
      forall j: nat | j < |ks| ensures !Less(ks[j], k) { LeastFirst(k, ks, j); }
    } else {
      var rest := ks[1..];
      assert ks == [ks[0]] + rest;
      InsertSorts(k, rest);
      var t := Insert(k, rest);
      LessTotal(k, ks[0]);
      LessAntisymmetric(ks[0], k);
      forall x | x in t ensures !Less(x, ks[0]) {
        assert x in multiset(rest) + multiset{k};
        assert x == k || x in rest;
      }
    }
  }

  lemma LessAntisymmetric(a: Key, b: Key)
    ensures Less(a, b) ==> !Less(b, a)
  {
    LessIrreflexive(a);
    if Less(a, b) && Less(b, a) { LessTransitive(a, b, a); }
  }

  /** `sort()` returns a sorted permutation. */
  lemma {:induction false} SortedSorts(ks: seq<Key>)
    ensures SortedKeys(Sorted(ks)) && multiset(Sorted(ks)) == multiset(ks)
  {
    if ks != [] {
      SortedSorts(ks[1..]);
      InsertSorts(ks[0], Sorted(ks[1..]));
      assert ks == [ks[0]] + ks[1..];
    }
  }

  lemma {:induction false} RepeatsByCount(ks: seq<Key>)
    ensures NoRepeats(ks) <==> forall k :: multiset(ks)[k] <= 1
  {
    if ks != [] {
      var rest := ks[1..];
      assert ks == [ks[0]] + rest;
      RepeatsByCount(rest);
      if NoRepeats(ks) {
        forall i, j | 0 <= i < j < |rest| ensures rest[i] != rest[j] { assert ks[i + 1] != ks[j + 1]; }
        forall i | 0 <= i < |rest| ensures rest[i] != ks[0] { assert ks[0] != ks[i + 1]; }
        assert multiset(rest)[ks[0]] == 0;
      }
      if forall k :: multiset(ks)[k] <= 1 {
        forall k ensures multiset(rest)[k] <= 1 { assert multiset(ks)[k] <= 1; }
        assert multiset(ks)[ks[0]] <= 1;
        assert ks[0] !in rest;
      }
    }
  }

  /** Sorting makes the distinct keys of a call ascend. */
  lemma WriteMultipleAscends(ks: seq<Key>)
    ensures DistinctKeys(WriteMultiple(ks)) <==> NoRepeats(ks)
    ensures NoRepeats(ks) ==> Ascending(WriteMultiple(ks))
  {
    SortedSorts(ks);
    RepeatsByCount(ks);
    var sk := Sorted(ks);
    RepeatsByCount(sk);
    assert NoRepeats(ks) <==> NoRepeats(sk);
    var w := Writes(sk);
    if NoRepeats(sk) {
      forall i, j | 0 <= i < j < |w| ensures Less(w[i].key, w[j].key) { LessTotal(sk[i], sk[j]); }
    }
    if DistinctKeys(w) {
      forall i, j | 0 <= i < j < |sk| ensures sk[i] != sk[j] { assert w[i].key != w[j].key; }
    }
  }

  lemma ReadWriteAscends(r: Key, w: Key)
    ensures DistinctKeys(ReadWrite(r, w)) <==> r != w
    ensures r != w ==> Ascending(ReadWrite(r, w))
  {
    assert Sorted([w]) == [w] by { assert [w][1..] == []; }
    assert [r, w][1..] == [w];
    assert Sorted([r, w])[0] == if Less(r, w) || r == w then r else w;
    LessTotal(r, w);
    var script := ReadWrite(r, w);
    if r == w { assert script[0].key == script[1].key; }
  }

  /** Every call orders its distinct keys upwards. */
  lemma CallsAscend(script: seq<Req>)
    requires IsCall(script) && DistinctKeys(script)
    ensures Ascending(script)
  {
    var c :| script == Script(c);
    match c
    case AcquireRead(k) =>
    case AcquireWrite(k) =>
    case AcquireWriteMultiple(ks) => WriteMultipleAscends(ks);
    case AcquireReadWrite(r, w) => ReadWriteAscends(r, w);
  }

  // ------------------------------------------------------------------ what a call locks

  /** How often a call asks for this lock: a write lock for each key it was given to write,
      a read lock for each key it was given to read, and nothing else. */
  function Asked(c: Call, q: Req): nat {
    match c
    case AcquireRead(k) => if q == Req(k, Read) then 1 else 0
    case AcquireWrite(k) => if q == Req(k, Write) then 1 else 0
    case AcquireWriteMultiple(ks) => if q.mode == Write then multiset(ks)[q.key] else 0
    case AcquireReadWrite(r, w) => (if q == Req(r, Read) then 1 else 0) + (if q == Req(w, Write) then 1 else 0)
  }

  lemma {:induction false} WritesAsked(ks: seq<Key>, q: Req)
    ensures multiset(Writes(ks))[q] == if q.mode == Write then multiset(ks)[q.key] else 0
  {
    if ks != [] {
      WritesAsked(ks[1..], q);
      assert ks == [ks[0]] + ks[1..];
      assert Writes(ks) == [Req(ks[0], Write)] + Writes(ks[1..]);
    }
  }

  /** The requests of a call are exactly the locks it was asked for. */
  lemma RequestsExact(c: Call, q: Req)
    ensures multiset(Script(c))[q] == Asked(c, q)
  {
    match c
    case AcquireRead(k) =>
    case AcquireWrite(k) =>
    case AcquireWriteMultiple(ks) =>
      SortedSorts(ks);
      WritesAsked(Sorted(ks), q);
    case AcquireReadWrite(r, w) =>
      ReadWriteAsked(r, w);
  }

  lemma ReadWriteAsked(r: Key, w: Key)
    ensures multiset(ReadWrite(r, w)) == multiset{Req(r, Read), Req(w, Write)}
  {
    SortedSorts([r, w]);
    assert multiset([r, w]) == multiset{r, w};
    hide Sorted, SortedKeys;
    var script := ReadWrite(r, w);
    assert script == [script[0], script[1]];
  }

  /** The other task has a lock on the key that goes with a lock of this mode. */
  ghost predicate Compatible(s: State, u: nat, j: nat, k: Key, mode: Mode) {
    u < |s.tasks| && Holds(s.tasks[u], j) && s.tasks[u].script[j].key == k ==> mode == Read && s.tasks[u].script[j].mode == Read
  }

  /** A waiting request can be granted iff every lock held on its key goes with it: readers
      share, a writer is alone. */
  lemma GrantExact(s: State, t: nat)
    requires Reachable(s) && t < |s.tasks| && Waiting(s.tasks[t])
    ensures WellFormed(s.mem)
    ensures var q := s.tasks[t].script[|s.tasks[t].got|];
            Enabled(s, GrantLock(t)) <==> forall u: nat, j: nat {:trigger Compatible(s, u, j, q.key, q.mode)} :: Compatible(s, u, j, q.key, q.mode)
  {
    ReachableInv(s);
    var x := s.tasks[t];
    var q := x.script[|x.got|];
    assert Captured(s.mem, x) && Agrees(s, q.key);
    if Enabled(s, GrantLock(t)) {
      forall u: nat, j: nat ensures Compatible(s, u, j, q.key, q.mode) { GrantedCompatible(s, t, u, j); }
    } else {
      var role := if EntryAt(s.mem, q.key).writer then Writer else Reader;
      var h := TotalWitness(s.tasks, q.key, role);
      var y := s.tasks[h];
      assert Captured(s.mem, y);
      var i := CountWitness(y.script, |y.got|, q.key, if role == Writer then Write else Read);
      assert !Compatible(s, h, i, q.key, q.mode);
    }
  }

  lemma GrantedCompatible(s: State, t: nat, u: nat, j: nat)
    requires Inv(s) && t < |s.tasks| && Waiting(s.tasks[t]) && Enabled(s, GrantLock(t))
    ensures var q := s.tasks[t].script[|s.tasks[t].got|]; Compatible(s, u, j, q.key, q.mode)
  {
    var x := s.tasks[t];
    var q := x.script[|x.got|];
    assert Captured(s.mem, x) && Agrees(s, q.key);
    if u < |s.tasks| && Holds(s.tasks[u], j) && s.tasks[u].script[j].key == q.key {
      var y := s.tasks[u];
      CountAtLeast(y.script, |y.got|, j);
      TotalAtLeast(s.tasks, u, q.key, if y.script[j].mode == Read then Reader else Writer);
    }
  }

  /** A task that holds all of its call has every lock it asked for: the entry says so, and
      no other task has a lock on a key to be written or a write lock on a key to be read. */
  lemma CallHolds(s: State, t: nat, c: Call, q: Req, u: nat, j: nat)
    requires Reachable(s) && t < |s.tasks| && s.tasks[t].script == Script(c) && Holding(s.tasks[t]) && Asked(c, q) > 0
    ensures WellFormed(s.mem)
    ensures if q.mode == Write then EntryAt(s.mem, q.key).writer else EntryAt(s.mem, q.key).readers > 0 && !EntryAt(s.mem, q.key).writer
    ensures u < |s.tasks| && u != t && Holds(s.tasks[u], j) && s.tasks[u].script[j].key == q.key ==>
              q.mode == Read && s.tasks[u].script[j].mode == Read
  {
    ReachableInv(s);
    RequestsExact(c, q);
    var x := s.tasks[t];
    assert q in multiset(x.script);
    var i :| 0 <= i < |x.script| && x.script[i] == q;
    assert Agrees(s, q.key);
    CountAtLeast(x.script, |x.got|, i);
    TotalAtLeast(s.tasks, t, q.key, if q.mode == Read then Reader else Writer);
    if u < |s.tasks| && u != t && Holds(s.tasks[u], j) && s.tasks[u].script[j].key == q.key { Exclusion(s, t, i, u, j); }
  }

  // ------------------------------------------------------------------ progress

  /** Some task can take a step that is neither a timeout nor a new call. */
  ghost predicate Progress(s: State)
    requires WellFormed(s.mem)
  {
    exists t :: 0 <= t < |s.tasks| &&
      (Enabled(s, Request(t)) || Enabled(s, GrantLock(t)) || Enabled(s, ReleaseAll(t)))
  }

  /** The waiter with the greatest key. */
  lemma {:induction false} GreatestWaiter(tasks: seq<Task>, n: nat, t0: nat) returns (t: nat)
    requires t0 < n <= |tasks| && Waiting(tasks[t0])
    ensures t < n && Waiting(tasks[t])
    ensures forall u :: 0 <= u < n && Waiting(tasks[u]) ==>
              !Less(tasks[t].script[|tasks[t].got|].key, tasks[u].script[|tasks[u].got|].key)
  {
    var last := n - 1;
    if t0 == last && forall u :: 0 <= u < last ==> !Waiting(tasks[u]) {
      t := last;
      LessIrreflexive(tasks[t].script[|tasks[t].got|].key);
    } else {
      var w0 := t0;
      if t0 == last { w0 :| 0 <= w0 < last && Waiting(tasks[w0]); }
      t := GreatestWaiter(tasks, last, w0);
      if Waiting(tasks[last]) {
        var kt, kl := tasks[t].script[|tasks[t].got|].key, tasks[last].script[|tasks[last].got|].key;
        LessIrreflexive(kl);
        if Less(kt, kl) {
          forall u | 0 <= u < last && Waiting(tasks[u])
            ensures !Less(kl, tasks[u].script[|tasks[u].got|].key)
          {
            var ku := tasks[u].script[|tasks[u].got|].key;
            if Less(kl, ku) { LessTransitive(kt, kl, ku); }
          }
          t := last;
        }
      }
    }
  }

  /** A refused request means some task holds a lock on that key. */
  lemma Holder(s: State, t: nat) returns (h: nat, i: nat)
    requires Inv(s) && t < |s.tasks| && Waiting(s.tasks[t]) && !Enabled(s, GrantLock(t))
    ensures h < |s.tasks| && Holds(s.tasks[h], i)
    ensures s.tasks[h].script[i].key == s.tasks[t].script[|s.tasks[t].got|].key
  {
    var x := s.tasks[t];
    var k := x.script[|x.got|].key;
    assert Captured(s.mem, x) && Agrees(s, k);
    var mode := if EntryAt(s.mem, k).writer then Write else Read;
    var role := if EntryAt(s.mem, k).writer then Writer else Reader;
    h := TotalWitness(s.tasks, k, role);
    var y := s.tasks[h];
    assert Captured(s.mem, y);
    i := CountWitness(y.script, |y.got|, k, mode);
  }

  /** Main result 2: when every call uses distinct keys, a state with a waiter is never stuck. */
  lemma DeadlockFree(s: State)
    requires Reachable(s)
    requires forall t :: 0 <= t < |s.tasks| ==> DistinctKeys(s.tasks[t].script)
    requires exists t :: 0 <= t < |s.tasks| && Waiting(s.tasks[t])
    ensures WellFormed(s.mem) && Progress(s)
  {
    ReachableInv(s);
    ReachableScripts(s);
    var t0 :| 0 <= t0 < |s.tasks| && Waiting(s.tasks[t0]);
    var t := GreatestWaiter(s.tasks, |s.tasks|, t0);
    if !Enabled(s, GrantLock(t)) {
      var h, i := Holder(s, t);
      var y := s.tasks[h];
      assert Captured(s.mem, y);
      if Waiting(y) {
        CallsAscend(y.script);
        assert false;
      } else if |y.got| < |y.script| {
        assert Enabled(s, Request(h));
      } else {
        assert Enabled(s, ReleaseAll(h));
      }
    }
  }

  ghost predicate Scripted(s: State) {
    forall t :: 0 <= t < |s.tasks| ==> s.tasks[t].script == [] || IsCall(s.tasks[t].script)
  }

  lemma {:induction false} RunScripted(s: State, steps: seq<Step>, s2: State)
    requires Scripted(s) && Run(s, steps, s2)
    ensures Scripted(s2)
    decreases |steps|
  {
    if steps != [] { RunScripted(Next(s, steps[0]), steps[1..], s2); }
  }

  lemma ReachableScripts(s: State)
    requires Reachable(s)
    ensures Scripted(s)
  {
    var steps :| Run(INIT, steps, s);
    RunScripted(INIT, steps, s);
  }

  // ------------------------------------------------------------------ repeated keys

  /** Position j repeats an earlier key, and one of the two requests is a write. */
  ghost predicate Repeats(script: seq<Req>, i: nat, j: nat) {
    i < j < |script| && script[i].key == script[j].key && (script[i].mode == Write || script[j].mode == Write)
  }

  /** Task t runs this script and has not got past position j, or it has already ended. */
  ghost predicate StuckBefore(s: State, t: nat, script: seq<Req>, j: nat) {
    t < |s.tasks| && (s.tasks[t] == FINISHED || (s.tasks[t].script == script && |s.tasks[t].got| <= j))
  }

  lemma RepeatNotGranted(s: State, t: nat, i: nat, j: nat)
    requires Inv(s) && t < |s.tasks| && Waiting(s.tasks[t])
    requires |s.tasks[t].got| == j && Repeats(s.tasks[t].script, i, j)
    ensures !Enabled(s, GrantLock(t))
  {
    var x := s.tasks[t];
    var k := x.script[i].key;
    assert Captured(s.mem, x) && Agrees(s, k);
    CountAtLeast(x.script, |x.got|, i);
    TotalAtLeast(s.tasks, t, k, if x.script[i].mode == Read then Reader else Writer);
    assert x.script[i].mode == Read || x.script[i].mode == Write;
  }

  lemma {:induction false} RepeatStaysStuck(s: State, steps: seq<Step>, s2: State, t: nat, script: seq<Req>, i: nat, j: nat)
    requires Inv(s) && Run(s, steps, s2) && Repeats(script, i, j) && StuckBefore(s, t, script, j)
    ensures StuckBefore(s2, t, script, j)
    decreases |steps|
  {
    if steps != [] {
      var step := steps[0];
      StepKeeps(s, step);
      if step == GrantLock(t) && |s.tasks[t].got| == j { RepeatNotGranted(s, t, i, j); }
      RepeatStaysStuck(Next(s, step), steps[1..], s2, t, script, i, j);
    }
  }

  /** The schedule in which a single task enters and is granted each request in turn. */
  ghost function SoloState(script: seq<Req>, n: nat): State
    requires n <= |script|
    decreases n
  {
    if n == 0 then State(INIT.mem, [Task(script, [], IDLE)])
    else
      var s := SoloState(script, n - 1);
      if |s.tasks| == 1 && AllCaptured(s) && Enabled(s, Request(0)) && Enabled(Next(s, Request(0)), GrantLock(0))
         && AllCaptured(Next(s, Request(0)))
      then Next(Next(s, Request(0)), GrantLock(0)) else s
  }

  function SoloSteps(n: nat): seq<Step> {
    if n == 0 then [] else SoloSteps(n - 1) + [Request(0), GrantLock(0)]
  }

  lemma {:induction false} RunAppend(s: State, steps: seq<Step>, s2: State, more: seq<Step>, s3: State)
    requires Run(s, steps, s2) && Run(s2, more, s3)
    ensures Run(s, steps + more, s3)
    decreases |steps|
  {
    if steps == [] { assert steps + more == more; }
    else {
      assert (steps + more)[1..] == steps[1..] + more;
      RunAppend(Next(s, steps[0]), steps[1..], s2, more, s3);
    }
  }

  ghost predicate SoloAt(s: State, script: seq<Req>, n: nat) {
    && Inv(s) && |s.tasks| == 1
    && s.tasks[0].script == script && |s.tasks[0].got| == n && s.tasks[0].waitingOn == IDLE
  }

  /** A single task's next request is granted at once: it holds no other lock on that key. */
  lemma SoloGrant(s: State, script: seq<Req>, n: nat)
    requires DistinctKeys(script) && n < |script| && SoloAt(s, script, n)
    ensures AllCaptured(s) && Enabled(s, Request(0))
    ensures var s1 := Next(s, Request(0));
            AllCaptured(s1) && Enabled(s1, GrantLock(0)) && SoloAt(Next(s1, GrantLock(0)), script, n + 1)
  {
    StepKeeps(s, Request(0));
    var s1 := Next(s, Request(0));
    var k := script[n].key;
    assert Agrees(s1, k);
    var x := s1.tasks[0];
    assert s1.tasks == [x];
    CountZero(script, n, k, Read);
    CountZero(script, n, k, Write);
    assert Total([x], k, Reader) == 0 && Total([x], k, Writer) == 0 by {
      assert [x][..0] == [];
    }
    assert Captured(s1.mem, x);
    assert Enabled(s1, GrantLock(0));
    StepKeeps(s1, GrantLock(0));
  }

  lemma RunTwo(s: State, a: Step, b: Step)
    requires AllCaptured(s) && Enabled(s, a) && AllCaptured(Next(s, a)) && Enabled(Next(s, a), b)
    requires AllCaptured(Next(Next(s, a), b))
    ensures Run(s, [a, b], Next(Next(s, a), b))
  {
    var s1 := Next(s, a);
    assert [a, b][1..] == [b] && [b][1..] == [];
    var s2 := Next(s1, b);
    assert Run(s2, [], s2);
    assert Run(s1, [b], s2);
  }

  /** The first n requests of a lone task can be made and granted in turn. */
  ghost predicate SoloDone(script: seq<Req>, n: nat)
    requires n <= |script|
  {
    SoloAt(SoloState(script, n), script, n) && Run(SoloState(script, 0), SoloSteps(n), SoloState(script, n))
  }

  lemma SoloStart(script: seq<Req>)
    ensures SoloDone(script, 0)
  {
    var s := SoloState(script, 0);
    forall k ensures Agrees(s, k) {
      TotalZero(s.tasks, k, Reader);
      TotalZero(s.tasks, k, Writer);
      TotalZero(s.tasks, k, Waiter);
    }
  }

  lemma SoloStep(script: seq<Req>, n: nat)
    requires DistinctKeys(script) && 0 < n <= |script| && SoloAt(SoloState(script, n - 1), script, n - 1)
    ensures SoloAt(SoloState(script, n), script, n)
    ensures Run(SoloState(script, n - 1), [Request(0), GrantLock(0)], SoloState(script, n))
  {
    var s := SoloState(script, n - 1);
    SoloGrant(s, script, n - 1);
    assert SoloState(script, n) == Next(Next(s, Request(0)), GrantLock(0));
    RunTwo(s, Request(0), GrantLock(0));
  }

  lemma SoloOneMore(script: seq<Req>, n: nat)
    requires DistinctKeys(script) && 0 < n <= |script| && SoloDone(script, n - 1)
    ensures SoloDone(script, n)
  {
    SoloStep(script, n);
    assert SoloSteps(n) == SoloSteps(n - 1) + [Request(0), GrantLock(0)];
    RunAppend(SoloState(script, 0), SoloSteps(n - 1), SoloState(script, n - 1), [Request(0), GrantLock(0)], SoloState(script, n));
  }

  lemma {:induction false} SoloRuns(script: seq<Req>, n: nat)
    requires DistinctKeys(script) && n <= |script|
    ensures SoloDone(script, n)
    decreases n
  {
    if n == 0 { SoloStart(script); } else { SoloRuns(script, n - 1); SoloOneMore(script, n); }
  }

  /** In some run some task running this call gets all its locks. */
  ghost predicate CanSucceed(script: seq<Req>) {
    exists steps, s2, t ::
      && Run(INIT, [Spawn(script)] + steps, s2)
      && 0 == t < |s2.tasks| && s2.tasks[t].script == script && Holding(s2.tasks[t])
  }

  lemma RepeatIn(script: seq<Req>) returns (i: nat, j: nat)
    requires IsCall(script) && !DistinctKeys(script)
    ensures Repeats(script, i, j)
  {
    i, j :| 0 <= i < j < |script| && script[i].key == script[j].key;
  }

  /** Main result 3: a non-empty call can ever be granted iff its keys are pairwise distinct.
      A repeated key makes the call wait for itself until it times out, however the other
      tasks are scheduled. */
  lemma GrantedIffDistinct(script: seq<Req>)
    requires IsCall(script) && script != []
    ensures CanSucceed(script) <==> DistinctKeys(script)
  {
    var s0 := Next(INIT, Spawn(script));
    if DistinctKeys(script) {
      var n := |script|;
      SoloRuns(script, n);
      var s := SoloState(script, n);
      var steps := [Spawn(script)] + SoloSteps(n);
      assert steps[1..] == SoloSteps(n);
      assert s0 == SoloState(script, 0);
      assert Run(INIT, steps, s);
    } else if CanSucceed(script) {
      var steps, s2, t :| Run(INIT, [Spawn(script)] + steps, s2)
        && 0 == t < |s2.tasks| && s2.tasks[t].script == script && Holding(s2.tasks[t]);
      assert ([Spawn(script)] + steps)[1..] == steps;
      StepKeeps(INIT, Spawn(script));
      var i, j := RepeatIn(script);
      RepeatStaysStuck(s0, steps, s2, 0, script, i, j);
      assert false;
    }
  }
}
