/** The buffered log writer, with every interleaving of enqueues, flushes and answers of the
    database at the points where the code awaits. */
module BufferedWriter {
  import opened Wrappers

  /** The buffer, the batches handed to `persistBatch` and not yet answered, what has been
      stored, and everything ever enqueued. */
  datatype State<T> = State(buffer: seq<T>, inFlight: seq<seq<T>>, persisted: multiset<T>, enqueued: multiset<T>)

  datatype Event<T> =
    | Enqueue(item: T)
    | Flush                          // by the timer, by a caller, or at shutdown
    | Answer(batch: nat, ok: bool)   // a batch in flight is stored, or fails

  /** Flushing up to the await: the buffer is copied and emptied. */
  function StartFlush<T>(s: State<T>): State<T> {
    if s.buffer == [] then s else s.(buffer := [], inFlight := s.inFlight + [s.buffer])
  }

  function Push<T>(s: State<T>, item: T): State<T> {
    s.(buffer := s.buffer + [item], enqueued := s.enqueued + multiset{item})
  }

  function Drop<T>(batches: seq<seq<T>>, k: nat): seq<seq<T>>
    requires k < |batches|
  {
    batches[..k] + batches[k + 1..]
  }

  function Step<T>(s: State<T>, maxSize: nat, e: Event<T>): State<T> {
    match e
    case Enqueue(item) =>
      var s1 := Push(s, item);
      if |s1.buffer| >= maxSize then StartFlush(s1) else s1
    case Flush => StartFlush(s)
    case Answer(k, ok) =>
      if k >= |s.inFlight| then s
      else if ok then
        s.(inFlight := Drop(s.inFlight, k), persisted := s.persisted + multiset(s.inFlight[k]))
      else
        s.(inFlight := Drop(s.inFlight, k), buffer := s.buffer + s.inFlight[k])
  }

  function Run<T>(s: State<T>, maxSize: nat, events: seq<Event<T>>): State<T>
    decreases |events|
  {
    if events == [] then s else Run(Step(s, maxSize, events[0]), maxSize, events[1..])
  }

  function Start<T>(): State<T> { State([], [], multiset{}, multiset{}) }

  function InBatches<T>(batches: seq<seq<T>>): multiset<T> {
    if batches == [] then multiset{}
    else InBatches(batches[..|batches| - 1]) + multiset(batches[|batches| - 1])
  }

  lemma BatchLast<T>(batches: seq<seq<T>>, b: seq<T>)
    ensures InBatches(batches + [b]) == InBatches(batches) + multiset(b)
  {
    assert (batches + [b])[..|batches|] == batches;
  }

  lemma Swap<T>(a: multiset<T>, b: multiset<T>, c: multiset<T>)
    ensures a + b + c == a + c + b
  {}

  lemma {:induction false} DropBatch<T>(batches: seq<seq<T>>, k: nat)
    requires k < |batches|
    ensures InBatches(batches) == InBatches(Drop(batches, k)) + multiset(batches[k])
  {
    var n := |batches| - 1;
    var init, last := batches[..n], multiset(batches[n]);
    if k == n {
      assert Drop(batches, k) == init;
    } else {
      DropBatch(init, k);
      var rest := Drop(init, k);
      assert Drop(batches, k) == rest + [batches[n]];
      assert (rest + [batches[n]])[..|rest|] == rest;
      assert InBatches(Drop(batches, k)) == InBatches(rest) + last;
      Swap(InBatches(rest), multiset(batches[k]), last);
    }
  }

  /** Nothing lost, nothing stored twice: every enqueued item is stored, in flight or
      buffered, as often as it was enqueued. */
  ghost predicate Accounted<T>(s: State<T>) {
    s.enqueued == s.persisted + InBatches(s.inFlight) + multiset(s.buffer)
  }

  ghost predicate NoEmptyBatch<T>(s: State<T>) {
    forall k | 0 <= k < |s.inFlight| :: s.inFlight[k] != []
  }

  ghost predicate Conserved<T>(s: State<T>) { Accounted(s) && NoEmptyBatch(s) }

  lemma FlushAccounts<T>(s: State<T>)
    requires Accounted(s)
    ensures Accounted(StartFlush(s))
  {
    BatchLast(s.inFlight, s.buffer);
  }

  lemma FlushKeeps<T>(s: State<T>)
    requires Accounted(s) && NoEmptyBatch(s)
    ensures Conserved(StartFlush(s))
  {
    FlushAccounts(s);
  }

  lemma PushAccounts<T>(s: State<T>, item: T)
    requires Accounted(s)
    ensures Accounted(Push(s, item))
  {}

  lemma StepKeeps<T>(s: State<T>, maxSize: nat, e: Event<T>)
    requires Conserved(s)
    ensures Conserved(Step(s, maxSize, e))
  {
    match e
    case Enqueue(item) =>
      PushAccounts(s, item);
      FlushKeeps(Push(s, item));
    case Flush => FlushKeeps(s);
    case Answer(k, ok) => if k < |s.inFlight| { AnswerKeeps(s, maxSize, k, ok); }
  }

  lemma AnswerKeeps<T>(s: State<T>, maxSize: nat, k: nat, ok: bool)
    requires Conserved(s) && k < |s.inFlight|
    ensures Conserved(Step(s, maxSize, Answer(k, ok)))
  {
    DropBatch(s.inFlight, k);
    var rest, batch := InBatches(Drop(s.inFlight, k)), multiset(s.inFlight[k]);
    assert s.enqueued == s.persisted + (rest + batch) + multiset(s.buffer);
    Regroup(s.persisted, rest, batch, multiset(s.buffer));
  }

  lemma Regroup<T>(p: multiset<T>, r: multiset<T>, b: multiset<T>, u: multiset<T>)
    ensures p + (r + b) + u == (p + b) + r + u
    ensures p + (r + b) + u == p + r + (u + b)
  {}

  /** Main result: over every interleaving the multiset of enqueued items is conserved. */
  lemma {:induction false} RunConserves<T>(s: State<T>, maxSize: nat, events: seq<Event<T>>)
    requires Conserved(s)
    ensures Conserved(Run(s, maxSize, events))
    decreases |events|
  {
    if events != [] {
      StepKeeps(s, maxSize, events[0]);
      RunConserves(Step(s, maxSize, events[0]), maxSize, events[1..]);
    }
  }

  lemma StartConserved<T>()
    ensures Conserved(Start<T>())
  {}

  /** So it is over every interleaving from the empty writer. */
  lemma AlwaysConserved<T>(maxSize: nat, events: seq<Event<T>>)
    ensures Conserved(Run(Start<T>(), maxSize, events))
  {
    StartConserved<T>();
    RunConserves(Start<T>(), maxSize, events);
  }

  predicate Failed<T>(e: Event<T>) { e.Answer? && !e.ok }

  /** The items of the batches that the database stored during a run. */
  ghost function StoredDuring<T>(s: State<T>, maxSize: nat, events: seq<Event<T>>): multiset<T>
    decreases |events|
  {
    if events == [] then multiset{}
    else
      var e := events[0];
      (if e.Answer? && !Failed(e) && e.batch < |s.inFlight| then multiset(s.inFlight[e.batch]) else multiset{})
      + StoredDuring(Step(s, maxSize, e), maxSize, events[1..])
  }

  /** Over every interleaving what has been stored is what the database answered to have
      stored; a failed batch adds nothing. */
  lemma {:induction false} StoredExact<T>(s: State<T>, maxSize: nat, events: seq<Event<T>>)
    ensures Run(s, maxSize, events).persisted == s.persisted + StoredDuring(s, maxSize, events)
    decreases |events|
  {
    if events != [] { StoredExact(Step(s, maxSize, events[0]), maxSize, events[1..]); }
  }

  function Limit(maxSize: nat): nat { if maxSize == 0 then 1 else maxSize }

  /** The buffer reaches its limit only by getting a failed batch back. */
  lemma {:induction false} BufferBounded<T>(s: State<T>, maxSize: nat, events: seq<Event<T>>)
    requires |s.buffer| < Limit(maxSize) && forall k | 0 <= k < |events| :: !Failed(events[k])
    ensures |Run(s, maxSize, events).buffer| < Limit(maxSize)
    decreases |events|
  {
    if events != [] {
      assert !Failed(events[0]);
      forall k | 0 <= k < |events[1..]| ensures !Failed(events[1..][k]) { assert !Failed(events[k + 1]); }
      BufferBounded(Step(s, maxSize, events[0]), maxSize, events[1..]);
    }
  }

  ghost predicate FullBatches<T>(s: State<T>, maxSize: nat) {
    forall k | 0 <= k < |s.inFlight| :: |s.inFlight[k]| >= Limit(maxSize)
  }

  /** Unless somebody calls for a flush, no batch is handed out before the limit is reached. */
  lemma {:induction false} FlushesWhenFull<T>(s: State<T>, maxSize: nat, events: seq<Event<T>>)
    requires FullBatches(s, maxSize) && forall k | 0 <= k < |events| :: !events[k].Flush?
    ensures FullBatches(Run(s, maxSize, events), maxSize)
    decreases |events|
  {
    if events != [] {
      assert !events[0].Flush?;
      FlushesWhenFull(Step(s, maxSize, events[0]), maxSize, events[1..]);
    }
  }

  /** Everything has been stored exactly when nothing is buffered and nothing is in flight. */
  lemma AllStoredExact<T>(s: State<T>)
    requires Conserved(s)
    ensures s.persisted == s.enqueued <==> s.buffer == [] && s.inFlight == []
  {
    assert |s.enqueued| == |s.persisted| + |InBatches(s.inFlight)| + |multiset(s.buffer)|;
    SomeInBatches(s.inFlight);
  }

  lemma SomeInBatches<T>(batches: seq<seq<T>>)
    requires forall k | 0 <= k < |batches| :: batches[k] != []
    ensures |InBatches(batches)| == 0 <==> batches == []
  {
    if batches != [] {
      var n := |batches| - 1;
      assert |InBatches(batches)| == |InBatches(batches[..n])| + |multiset(batches[n])|;
    }
  }

  /** Shutdown flushes once and waits for that batch alone. If it is stored and nothing else
      happens, what is missing is exactly what other flushes still had in flight. */
  lemma ShutdownExact<T>(s: State<T>, maxSize: nat)
    requires Conserved(s) && s.buffer != []
    ensures var end := Step(Step(s, maxSize, Flush), maxSize, Answer(|s.inFlight|, true));
            end.buffer == [] && end.inFlight == s.inFlight && end.enqueued == end.persisted + InBatches(s.inFlight)
            && (end.persisted == end.enqueued <==> s.inFlight == [])
  {
    var flushed := Step(s, maxSize, Flush);
    var end := Step(flushed, maxSize, Answer(|s.inFlight|, true));
    StepKeeps(s, maxSize, Flush);
    StepKeeps(flushed, maxSize, Answer(|s.inFlight|, true));
    assert Drop(flushed.inFlight, |s.inFlight|) == s.inFlight;
    AllStoredExact(end);
  }

  // ------------------------------------------------------------------ the writer

  /** The writer's methods, cut at their await: a flush hands out the batch it would persist,
      and resumes in `Answered`. The ghost field follows the whole history. */
  class Writer<T(==)> {
    var buffer: seq<T>
    const maxSize: nat
    ghost var history: State<T>

    ghost predicate Valid()
      reads this
    {
      buffer == history.buffer && Conserved(history)
    }

    constructor (maxSize: nat)
      ensures Valid() && this.maxSize == maxSize && history == Start()
    {
      this.maxSize, buffer, history := maxSize, [], Start();
    }

    method EnqueueItem(item: T) returns (batch: Option<seq<T>>)
      requires Valid()
      modifies this
      ensures Valid()
      ensures history == Step(old(history), maxSize, Enqueue(item))
      ensures batch == if |old(buffer)| + 1 >= maxSize then Some(old(buffer) + [item]) else None
    {
      StepKeeps(history, maxSize, Enqueue(item));
      history := Step(history, maxSize, Enqueue(item));
      buffer := buffer + [item];
      batch := None;
      if |buffer| >= maxSize { batch := TakeBuffer(); }
    }

    method TakeBuffer() returns (batch: Option<seq<T>>)
      modifies this`buffer
      ensures batch == (if old(buffer) == [] then None else Some(old(buffer))) && buffer == []
    {
      if |buffer| == 0 { return None; }
      batch := Some(buffer);
      buffer := [];
    }

    method FlushBuffer() returns (batch: Option<seq<T>>)
      requires Valid()
      modifies this
      ensures Valid() && buffer == []
      ensures history == Step(old(history), maxSize, Flush)
      ensures batch == if old(buffer) == [] then None else Some(old(buffer))
    {
      FlushKeeps(history);
      history := Step(history, maxSize, Flush);
      batch := TakeBuffer();
    }

    method Answered(batch: seq<T>, ghost k: nat, ok: bool)
      requires Valid() && k < |history.inFlight| && history.inFlight[k] == batch
      modifies this
      ensures Valid()
      ensures history == Step(old(history), maxSize, Answer(k, ok))
      ensures buffer == old(buffer) + if ok then [] else batch
    {
      StepKeeps(history, maxSize, Answer(k, ok));
      history := Step(history, maxSize, Answer(k, ok));
      if !ok { buffer := buffer + batch; }
    }
  }
}
