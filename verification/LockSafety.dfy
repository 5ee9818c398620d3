/** What every step of the lock protocol keeps: reference counts equal holders plus waiters,
    readers and a writer never overlap, closures refer to the stored entry. */
module LockSafety {
  import opened JsStrings
  import opened LockTable
  import opened LockProtocol

  /** The entry stored for k says exactly what the tasks are doing with k. */
  ghost predicate Agrees(s: State, k: Key)
    requires WellFormed(s.mem)
  {
    var e := EntryAt(s.mem, k);
    && e.readers == Total(s.tasks, k, Reader)
    && (if e.writer then 1 else 0) == Total(s.tasks, k, Writer)
    && e.refCount == Total(s.tasks, k, Reader) + Total(s.tasks, k, Writer) + Total(s.tasks, k, Waiter)
    && !(e.writer && e.readers > 0)
  }

  ghost predicate Inv(s: State) {
    AllCaptured(s) && forall k :: Agrees(s, k)
  }

  /** Task t becomes y; the entry of k0 changes by the difference in its weights, all other
      entries and weights stay. */
  lemma Moved(s: State, s2: State, t: nat, y: Task, k0: Key)
    requires Inv(s) && WellFormed(s2.mem)
    requires t < |s.tasks| && s2.tasks == s.tasks[t := y]
    requires forall k :: k != k0 ==> EntryAt(s2.mem, k) == EntryAt(s.mem, k)
    requires forall k, role :: k != k0 ==> Weight(y, k, role) == Weight(s.tasks[t], k, role)
    requires var e, e2, x := EntryAt(s.mem, k0), EntryAt(s2.mem, k0), s.tasks[t];
             && e2.readers - e.readers == Weight(y, k0, Reader) - Weight(x, k0, Reader)
             && (if e2.writer then 1 else 0) - (if e.writer then 1 else 0) == Weight(y, k0, Writer) - Weight(x, k0, Writer)
             && e2.refCount - e.refCount == Weight(y, k0, Reader) - Weight(x, k0, Reader)
                                            + Weight(y, k0, Writer) - Weight(x, k0, Writer)
                                            + Weight(y, k0, Waiter) - Weight(x, k0, Waiter)
             && !(e2.writer && e2.readers > 0)
    ensures forall k :: Agrees(s2, k)
  {
    forall k ensures Agrees(s2, k) {
      assert Agrees(s, k);
      TotalUpdate(s.tasks, t, y, k, Reader);
      TotalUpdate(s.tasks, t, y, k, Writer);
      TotalUpdate(s.tasks, t, y, k, Waiter);
    }
  }

  lemma TotalAppend(tasks: seq<Task>, x: Task, k: Key, role: Role)
    ensures Total(tasks + [x], k, role) == Total(tasks, k, role) + Weight(x, k, role)
  {
    assert (tasks + [x])[..|tasks|] == tasks;
  }

  lemma SpawnKeeps(s: State, script: seq<Req>)
    requires Inv(s)
    ensures Inv(s.(tasks := s.tasks + [Task(script, [], IDLE)]))
  {
    var x := Task(script, [], IDLE);
    var s2 := s.(tasks := s.tasks + [x]);
    forall k ensures Agrees(s2, k) {
      assert Agrees(s, k);
      TotalAppend(s.tasks, x, k, Reader);
      TotalAppend(s.tasks, x, k, Writer);
      TotalAppend(s.tasks, x, k, Waiter);
    }
  }

  lemma RequestKeeps(s: State, t: nat)
    requires Inv(s) && Enabled(s, Request(t))
    ensures Inv(Next(s, Request(t)))
  {
    var x := s.tasks[t];
    var k0 := x.script[|x.got|].key;
    var s2 := Next(s, Request(t));
    assert Agrees(s, k0);
    Moved(s, s2, t, s2.tasks[t], k0);
  }

  /** A captured entry is granted to the waiter. */
  lemma GrantKeeps(s: State, t: nat)
    requires Inv(s) && Enabled(s, GrantLock(t))
    ensures Inv(Next(s, GrantLock(t)))
  {
    var x := s.tasks[t];
    var n := |x.got|;
    var k0 := x.script[n].key;
    var s2 := Next(s, GrantLock(t));
    var y := s2.tasks[t];
    assert Captured(s.mem, x);
    assert Agrees(s, k0);
    forall k ensures Count(y.script, n + 1, k, Read) == Count(x.script, n, k, Read) + (if x.script[n] == Req(k, Read) then 1 else 0)
    {}
    Moved(s, s2, t, y, k0);
  }

  /** The state in which task t has already run its last closure. */
  ghost function Popped(s: State, t: nat): (s2: State)
    requires AllCaptured(s) && t < |s.tasks| && s.tasks[t].waitingOn == IDLE && s.tasks[t].got != []
    ensures AllCaptured(s2)
  {
    var x := s.tasks[t];
    var n := |x.got| - 1;
    assert Captured(s.mem, x);
    State(Release(s.mem, x.script[n].key, x.got[n]), s.tasks[t := Task(x.script, x.got[..n], IDLE)])
  }

  lemma PopKeeps(s: State, t: nat)
    requires Inv(s) && t < |s.tasks| && s.tasks[t].waitingOn == IDLE && s.tasks[t].got != []
    ensures Inv(Popped(s, t))
  {
    var x := s.tasks[t];
    var n := |x.got| - 1;
    var k0, mode := x.script[n].key, x.script[n].mode;
    var s2 := Popped(s, t);
    assert Captured(s.mem, x);
    assert Agrees(s, k0);
    CountAtLeast(x.script, n + 1, n);
    TotalAtLeast(s.tasks, t, k0, if mode == Read then Reader else Writer);
    Moved(s, s2, t, s2.tasks[t], k0);
  }

  /** Running all closures in reverse order leaves a state in which the task holds nothing. */
  lemma {:induction false} ReleaseDownKeeps(s: State, t: nat, x: Task, n: nat)
    requires Inv(s) && t < |s.tasks|
    requires n <= |x.got| <= |x.script| && forall i :: 0 <= i < |x.got| ==> x.got[i] < |s.mem.heap|
    requires s.tasks[t] == Task(x.script, x.got[..n], IDLE)
    ensures Inv(State(ReleaseDown(s.mem, x, n), s.tasks[t := FINISHED]))
    decreases n
  {
    if n == 0 {
      var s2 := State(s.mem, s.tasks[t := FINISHED]);
      forall k ensures Agrees(s2, k) {
        assert Agrees(s, k);
        TotalUpdate(s.tasks, t, FINISHED, k, Reader);
        TotalUpdate(s.tasks, t, FINISHED, k, Writer);
        TotalUpdate(s.tasks, t, FINISHED, k, Waiter);
      }
    } else {
      PopKeeps(s, t);
      var s1 := Popped(s, t);
      assert x.got[..n][..n - 1] == x.got[..n - 1];
      ReleaseDownKeeps(s1, t, x, n - 1);
      assert s1.tasks[t := FINISHED] == s.tasks[t := FINISHED];
    }
  }

  lemma TimeoutKeeps(s: State, t: nat)
    requires Inv(s) && Enabled(s, Timeout(t))
    ensures Inv(Next(s, Timeout(t)))
  {
    var x := s.tasks[t];
    var k0 := x.script[|x.got|].key;
    var y := Task(x.script, x.got, IDLE);
    var s1 := State(DecrementRef(s.mem, k0), s.tasks[t := y]);
    assert Captured(s.mem, x);
    assert Agrees(s, k0);
    Moved(s, s1, t, y, k0);
    assert x.got[..|x.got|] == x.got;
    ReleaseDownKeeps(s1, t, x, |x.got|);
    assert s1.tasks[t := FINISHED] == s.tasks[t := FINISHED];
  }

  lemma ReleaseAllKeeps(s: State, t: nat)
    requires Inv(s) && Enabled(s, ReleaseAll(t))
    ensures Inv(Next(s, ReleaseAll(t)))
  {
    var x := s.tasks[t];
    assert Captured(s.mem, x);
    assert x.got[..|x.got|] == x.got;
    ReleaseDownKeeps(s, t, x, |x.got|);
  }

  /** A key that a task holds or waits for has a positive reference count. */
  lemma InUse(s: State, t: nat, k: Key)
    requires Inv(s) && t < |s.tasks|
    requires var x := s.tasks[t];
             || (exists i :: 0 <= i < |x.got| && x.script[i].key == k)
             || (Waiting(x) && x.script[|x.got|].key == k)
    ensures EntryAt(s.mem, k).refCount > 0
  {
    var x := s.tasks[t];
    assert Captured(s.mem, x) && Agrees(s, k);
    TotalAtLeast(s.tasks, t, k, Reader);
    TotalAtLeast(s.tasks, t, k, Writer);
    TotalAtLeast(s.tasks, t, k, Waiter);
    if i :| 0 <= i < |x.got| && x.script[i].key == k {
      CountAtLeast(x.script, |x.got|, i);
      assert x.script[i].mode == Read || x.script[i].mode == Write;
    }
  }

  /** cleanup never removes an entry in use. */
  lemma SweepKeeps(s: State)
    requires Inv(s)
    ensures Inv(Next(s, Sweep))
  {
    var s2 := Next(s, Sweep);
    forall t | 0 <= t < |s.tasks| ensures Captured(s2.mem, s.tasks[t]) {
      var x := s.tasks[t];
      assert Captured(s.mem, x);
      forall i | 0 <= i < |x.got| ensures x.script[i].key in s2.mem.table { InUse(s, t, x.script[i].key); }
      if Waiting(x) { InUse(s, t, x.script[|x.got|].key); }
    }
    forall k ensures Agrees(s2, k) { assert Agrees(s, k); }
  }

  /** Main result 1: every step keeps the invariant. */
  lemma StepKeeps(s: State, step: Step)
    requires Inv(s) && Enabled(s, step)
    ensures Inv(Next(s, step))
  {
    match step
    case Spawn(script) => SpawnKeeps(s, script);
    case Request(t) => RequestKeeps(s, t);
    case GrantLock(t) => GrantKeeps(s, t);
    case Timeout(t) => TimeoutKeeps(s, t);
    case ReleaseAll(t) => ReleaseAllKeeps(s, t);
    case Sweep => SweepKeeps(s);
  }

  // ------------------------------------------------------------------ runs

  ghost predicate Run(s: State, steps: seq<Step>, s2: State)
    decreases |steps|
  {
    AllCaptured(s) &&
    if steps == [] then s == s2
    else Enabled(s, steps[0]) && Run(Next(s, steps[0]), steps[1..], s2)
  }

  ghost predicate Reachable(s: State) {
    exists steps :: Run(INIT, steps, s)
  }

  lemma {:induction false} RunKeeps(s: State, steps: seq<Step>, s2: State)
    requires Inv(s) && Run(s, steps, s2)
    ensures Inv(s2)
    decreases |steps|
  {
    if steps != [] {
      StepKeeps(s, steps[0]);
      RunKeeps(Next(s, steps[0]), steps[1..], s2);
    }
  }

  lemma ReachableInv(s: State)
    requires Reachable(s)
    ensures Inv(s)
  {
    var steps :| Run(INIT, steps, s);
    RunKeeps(INIT, steps, s);
  }

  ghost predicate Holds(x: Task, i: nat) { i < |x.got| <= |x.script| }

  /** Two different locks held on one key are both read locks. */
  lemma Exclusion(s: State, t: nat, i: nat, u: nat, j: nat)
    requires Reachable(s)
    requires t < |s.tasks| && u < |s.tasks| && (t, i) != (u, j)
    requires Holds(s.tasks[t], i) && Holds(s.tasks[u], j)
    requires s.tasks[t].script[i].key == s.tasks[u].script[j].key
    ensures s.tasks[t].script[i].mode == s.tasks[u].script[j].mode == Read
  {
    ReachableInv(s);
    var x, y := s.tasks[t], s.tasks[u];
    var k := x.script[i].key;
    assert Agrees(s, k);
    CountAtLeast(x.script, |x.got|, i);
    CountAtLeast(y.script, |y.got|, j);
    TotalAtLeast(s.tasks, t, k, Reader);
    TotalAtLeast(s.tasks, t, k, Writer);
    TotalAtLeast(s.tasks, u, k, Reader);
    TotalAtLeast(s.tasks, u, k, Writer);
    if x.script[i].mode == Write && y.script[j].mode == Write {
      if t == u {
        CountTwo(x.script, |x.got|, if i < j then i else j, if i < j then j else i);
      } else {
        TotalTwo(s.tasks, t, u, k, Writer);
      }
    }
  }

  lemma {:induction false} CountTwo(script: seq<Req>, n: nat, i: nat, j: nat)
    requires i < j < n <= |script| && script[i] == script[j]
    ensures Count(script, n, script[i].key, script[i].mode) >= 2
  {
    if j < n - 1 { CountTwo(script, n - 1, i, j); } else { CountAtLeast(script, n - 1, i); }
  }

  lemma TotalTwo(tasks: seq<Task>, t: nat, u: nat, k: Key, role: Role)
    requires t < |tasks| && u < |tasks| && t != u
    ensures Total(tasks, k, role) >= Weight(tasks[t], k, role) + Weight(tasks[u], k, role)
  {
    TotalUpdate(tasks, t, FINISHED, k, role);
    TotalAtLeast(tasks[t := FINISHED], u, k, role);
  }

  /** In every reachable state the reference count of a key is holders plus waiters, its
      entry is present whenever anyone uses it, and closures point at that entry. */
  lemma TableSafety(s: State)
    requires Reachable(s)
    ensures WellFormed(s.mem)
    ensures forall k :: EntryAt(s.mem, k).refCount ==
                        Total(s.tasks, k, Reader) + Total(s.tasks, k, Writer) + Total(s.tasks, k, Waiter)
    ensures forall t, i :: 0 <= t < |s.tasks| && 0 <= i && Holds(s.tasks[t], i) ==>
              var k := s.tasks[t].script[i].key;
              k in s.mem.table && s.mem.table[k] == s.tasks[t].got[i]
              && k in Cleanup(s.mem).table && Cleanup(s.mem).table[k] == s.tasks[t].got[i]
  {
    ReachableInv(s);
    forall k ensures EntryAt(s.mem, k).refCount ==
                     Total(s.tasks, k, Reader) + Total(s.tasks, k, Writer) + Total(s.tasks, k, Waiter)
    { assert Agrees(s, k); }
    SweepKeeps(s);
    assert AllCaptured(Next(s, Sweep));
    forall t, i | 0 <= t < |s.tasks| && 0 <= i && Holds(s.tasks[t], i)
      ensures var k := s.tasks[t].script[i].key;
              k in s.mem.table && s.mem.table[k] == s.tasks[t].got[i]
              && k in Cleanup(s.mem).table && Cleanup(s.mem).table[k] == s.tasks[t].got[i]
    { assert Captured(s.mem, s.tasks[t]) && Captured(Next(s, Sweep).mem, s.tasks[t]); }
  }

  /** A call that fails part-way, like one that is released, leaves no lock and no reference
      of its own behind: the entry of every key loses exactly what the task contributed. */
  lemma EndOfCall(s: State, step: Step, k: Key)
    requires Inv(s) && Enabled(s, step)
    requires step.Timeout? || step.ReleaseAll?
    ensures var t, s2 := step.t, Next(s, step);
            var x, e, e2 := s.tasks[t], EntryAt(s.mem, k), EntryAt(s2.mem, k);
            && s2.tasks[t] == FINISHED
            && e2.readers == e.readers - Weight(x, k, Reader)
            && (if e2.writer then 1 else 0) == (if e.writer then 1 else 0) - Weight(x, k, Writer)
            && e2.refCount == e.refCount - Weight(x, k, Reader) - Weight(x, k, Writer) - Weight(x, k, Waiter)
  {
    StepKeeps(s, step);
    Finished(s, Next(s, step), step.t, k);
  }

  lemma Finished(s: State, s2: State, t: nat, k: Key)
    requires Inv(s) && Inv(s2) && t < |s.tasks| && s2.tasks == s.tasks[t := FINISHED]
    ensures var x, e, e2 := s.tasks[t], EntryAt(s.mem, k), EntryAt(s2.mem, k);
            && e2.readers == e.readers - Weight(x, k, Reader)
            && (if e2.writer then 1 else 0) == (if e.writer then 1 else 0) - Weight(x, k, Writer)
            && e2.refCount == e.refCount - Weight(x, k, Reader) - Weight(x, k, Writer) - Weight(x, k, Waiter)
  {
    assert Agrees(s, k) && Agrees(s2, k);
    TotalUpdate(s.tasks, t, FINISHED, k, Reader);
    TotalUpdate(s.tasks, t, FINISHED, k, Writer);
    TotalUpdate(s.tasks, t, FINISHED, k, Waiter);
  }
}
