/** Any number of tasks using the lock manager, one await at a time.
    A call is a script of (key, mode) requests made in order; a task is either between
    awaits or suspended on one request. Everything a method does between two awaits is one
    step, as in the single-threaded source. */
module LockProtocol {
  import opened JsStrings
  import opened LockTable

  datatype Req = Req(key: Key, mode: Mode)

  /** got[i] is the entry captured by the release closure of script[i]. A finished task has
      an empty script. */
  datatype Task = Task(script: seq<Req>, got: seq<nat>, waitingOn: int)

  const IDLE := -1
  const FINISHED := Task([], [], IDLE)

  datatype State = State(mem: Memory, tasks: seq<Task>)

  const INIT := State(Memory(map[], []), [])

  // ------------------------------------------------------------------ the calls

  function Insert(k: Key, ks: seq<Key>): seq<Key> {
    if ks == [] || Less(k, ks[0]) || k == ks[0] then [k] + ks else [ks[0]] + Insert(k, ks[1..])
  }

  /** `[...keys].sort()` */
  function Sorted(ks: seq<Key>): seq<Key> {
    if ks == [] then [] else Insert(ks[0], Sorted(ks[1..]))
  }

  function Writes(ks: seq<Key>): (s: seq<Req>)
    ensures |s| == |ks| && forall i :: 0 <= i < |s| ==> s[i] == Req(ks[i], Write)
  {
    if ks == [] then [] else [Req(ks[0], Write)] + Writes(ks[1..])
  }

  /** acquireWriteMultiple */
  function WriteMultiple(ks: seq<Key>): seq<Req> {
    Writes(Sorted(ks))
  }

  /** acquireReadWrite */
  function ReadWrite(readKey: Key, writeKey: Key): seq<Req> {
    var first := Sorted([readKey, writeKey])[0];
    if first == readKey then [Req(readKey, Read), Req(writeKey, Write)]
    else [Req(writeKey, Write), Req(readKey, Read)]
  }

  /** The four public methods. */
  datatype Call =
    | AcquireRead(key: Key)
    | AcquireWrite(key: Key)
    | AcquireWriteMultiple(keys: seq<Key>)
    | AcquireReadWrite(readKey: Key, writeKey: Key)

  function Script(c: Call): seq<Req> {
    match c
    case AcquireRead(k) => [Req(k, Read)]
    case AcquireWrite(k) => [Req(k, Write)]
    case AcquireWriteMultiple(ks) => WriteMultiple(ks)
    case AcquireReadWrite(r, w) => ReadWrite(r, w)
  }

  ghost predicate IsCall(script: seq<Req>) {
    exists c :: script == Script(c)
  }

  ghost predicate Ascending(script: seq<Req>) {
    forall i, j :: 0 <= i < j < |script| ==> Less(script[i].key, script[j].key)
  }

  ghost predicate DistinctKeys(script: seq<Req>) {
    forall i, j :: 0 <= i < j < |script| ==> script[i].key != script[j].key
  }

  // ------------------------------------------------------------------ the steps

  datatype Step =
    | Spawn(script: seq<Req>)
    | Request(t: nat)     // enter the next acquire: look the entry up and start to wait
    | GrantLock(t: nat)   // the lock library lets the waiter in
    | Timeout(t: nat)     // the wait expires: undo this request, release what was acquired
    | ReleaseAll(t: nat)  // the caller runs the returned release function
    | Sweep               // the periodic cleanup

  predicate Waiting(x: Task) { x.waitingOn >= 0 && |x.got| < |x.script| }

  predicate Acquiring(x: Task) { x.waitingOn == IDLE && |x.got| < |x.script| }

  predicate Holding(x: Task) { x.waitingOn == IDLE && x.script != [] && |x.got| == |x.script| }

  ghost predicate Enabled(s: State, step: Step)
    requires WellFormed(s.mem)
  {
    match step
    case Spawn(script) => IsCall(script)
    case Request(t) => t < |s.tasks| && Acquiring(s.tasks[t])
    case GrantLock(t) =>
      && t < |s.tasks| && Waiting(s.tasks[t])
      && var x := s.tasks[t];
         x.waitingOn < |s.mem.heap| && CanGrant(s.mem.heap[x.waitingOn], x.script[|x.got|].mode)
    case Timeout(t) => t < |s.tasks| && Waiting(s.tasks[t])
    case ReleaseAll(t) => t < |s.tasks| && Holding(s.tasks[t])
    case Sweep => true
  }

  /** Release closures n-1 down to 0. */
  function ReleaseDown(m: Memory, x: Task, n: nat): (r: Memory)
    requires WellFormed(m) && n <= |x.got| <= |x.script|
    requires forall i :: 0 <= i < |x.got| ==> x.got[i] < |m.heap|
    ensures WellFormed(r)
    decreases n
  {
    if n == 0 then m
    else ReleaseDown(Release(m, x.script[n - 1].key, x.got[n - 1]), x, n - 1)
  }

  ghost predicate Captured(m: Memory, x: Task) {
    && |x.got| <= |x.script|
    && (forall i :: 0 <= i < |x.got| ==> x.script[i].key in m.table && m.table[x.script[i].key] == x.got[i])
    && (x.waitingOn == IDLE || (Waiting(x) && x.script[|x.got|].key in m.table
                                && m.table[x.script[|x.got|].key] == x.waitingOn))
  }

  /** Every task's closures, and its pending request, refer to the entries now stored. */
  ghost predicate AllCaptured(s: State) {
    WellFormed(s.mem) && forall t :: 0 <= t < |s.tasks| ==> Captured(s.mem, s.tasks[t])
  }

  ghost function Next(s: State, step: Step): State
    requires AllCaptured(s) && Enabled(s, step)
  {
    match step
    case Spawn(script) => s.(tasks := s.tasks + [Task(script, [], IDLE)])
    case Request(t) =>
      var x := s.tasks[t];
      var (m, id) := GetOrCreate(s.mem, x.script[|x.got|].key);
      State(m, s.tasks[t := x.(waitingOn := id)])
    case GrantLock(t) =>
      var x := s.tasks[t];
      State(Grant(s.mem, x.waitingOn, x.script[|x.got|].mode),
            s.tasks[t := Task(x.script, x.got + [x.waitingOn], IDLE)])
    case Timeout(t) =>
      var x := s.tasks[t];
      State(ReleaseDown(DecrementRef(s.mem, x.script[|x.got|].key), x, |x.got|),
            s.tasks[t := FINISHED])
    case ReleaseAll(t) =>
      State(ReleaseDown(s.mem, s.tasks[t], |s.tasks[t].got|), s.tasks[t := FINISHED])
    case Sweep => s.(mem := Cleanup(s.mem))
  }

  // ------------------------------------------------------------------ counting

  /** Locks of one mode on one key among the first n requests of a script. */
  function Count(script: seq<Req>, n: nat, k: Key, mode: Mode): nat
    requires n <= |script|
  {
    if n == 0 then 0
    else Count(script, n - 1, k, mode) + if script[n - 1] == Req(k, mode) then 1 else 0
  }

  datatype Role = Reader | Writer | Waiter

  function Weight(x: Task, k: Key, role: Role): nat {
    if |x.got| > |x.script| then 0 else
    match role
    case Reader => Count(x.script, |x.got|, k, Read)
    case Writer => Count(x.script, |x.got|, k, Write)
    case Waiter => if Waiting(x) && x.script[|x.got|].key == k then 1 else 0
  }

  function Total(tasks: seq<Task>, k: Key, role: Role): nat {
    if tasks == [] then 0 else Total(tasks[..|tasks| - 1], k, role) + Weight(tasks[|tasks| - 1], k, role)
  }

  lemma {:induction false} TotalUpdate(tasks: seq<Task>, t: nat, x: Task, k: Key, role: Role)
    requires t < |tasks|
    ensures Total(tasks[t := x], k, role) == Total(tasks, k, role) - Weight(tasks[t], k, role) + Weight(x, k, role)
  {
    var n := |tasks| - 1;
    if t == n {
      assert tasks[t := x][..n] == tasks[..n];
    } else {
      assert tasks[t := x][..n] == tasks[..n][t := x];
      TotalUpdate(tasks[..n], t, x, k, role);
    }
  }

  lemma {:induction false} TotalZero(tasks: seq<Task>, k: Key, role: Role)
    requires forall t :: 0 <= t < |tasks| ==> Weight(tasks[t], k, role) == 0
    ensures Total(tasks, k, role) == 0
  {
    if tasks != [] { TotalZero(tasks[..|tasks| - 1], k, role); }
  }

  /** A positive total is owed to some task. */
  lemma {:induction false} TotalWitness(tasks: seq<Task>, k: Key, role: Role) returns (t: nat)
    requires Total(tasks, k, role) > 0
    ensures t < |tasks| && Weight(tasks[t], k, role) > 0
  {
    t := |tasks| - 1;
    if Weight(tasks[t], k, role) == 0 { t := TotalWitness(tasks[..|tasks| - 1], k, role); }
  }

  lemma {:induction false} TotalAtLeast(tasks: seq<Task>, t: nat, k: Key, role: Role)
    requires t < |tasks|
    ensures Total(tasks, k, role) >= Weight(tasks[t], k, role)
  {
    TotalUpdate(tasks, t, FINISHED, k, role);
  }

  lemma {:induction false} CountWitness(script: seq<Req>, n: nat, k: Key, mode: Mode) returns (i: nat)
    requires n <= |script| && Count(script, n, k, mode) > 0
    ensures i < n && script[i] == Req(k, mode)
  {
    if script[n - 1] == Req(k, mode) { i := n - 1; } else { i := CountWitness(script, n - 1, k, mode); }
  }

  lemma {:induction false} CountAtLeast(script: seq<Req>, n: nat, i: nat)
    requires i < n <= |script|
    ensures Count(script, n, script[i].key, script[i].mode) >= 1
  {
    if i < n - 1 { CountAtLeast(script, n - 1, i); }
  }

  lemma {:induction false} CountZero(script: seq<Req>, n: nat, k: Key, mode: Mode)
    requires n <= |script| && forall i :: 0 <= i < n ==> script[i].key != k
    ensures Count(script, n, k, mode) == 0
  {
    if n > 0 { CountZero(script, n - 1, k, mode); }
  }
}
