/** Whom the per-user limit stops and whom it does not: a waiting ticket uses up its own
    user's allowance, and sessions opened at once use up none. */
module UploadQueueLimit {
  import opened Wrappers
  import opened UploadQueue
  import opened UploadQueueSafety
  import opened UploadQueueOrder

  // ------------------------------------------------------------------ full users

  /** A step after which a user with a full allowance still has all its tickets. */
  predicate StaysFull(c: Limits, q: Queue, q': Queue, u: string) {
    |OwnIds(q, u)| >= c.perUser && OwnIds(q, u) <= OwnIds(q', u)
  }

  lemma {:induction false} FullNotPromoted(c: Limits, q: Queue, i: nat, now: int, open: set<string>, u: string)
    requires Inv(c, q) && |OwnIds(q, u)| >= c.perUser
    ensures ReadyIds(PromoteFrom(c, q, i, now, open), u) == ReadyIds(q, u)
    ensures OwnIds(PromoteFrom(c, q, i, now, open), u) == OwnIds(q, u)
    decreases |q.waiting| - i
  {
    if i < |q.waiting| && HasCapacity(c, q, HeadSize(q)) {
      FullNotTried(c, q, q.waiting[0], now, open, u);
      TryPromoteKeeps(c, q, q.waiting[0], now, open);
      FullNotPromoted(c, TryPromote(c, q, q.waiting[0], now, open), i + 1, now, open, u);
    }
  }

  lemma FullNotTried(c: Limits, q: Queue, id: TicketId, now: int, open: set<string>, u: string)
    requires Inv(c, q) && |OwnIds(q, u)| >= c.perUser
    ensures ReadyIds(TryPromote(c, q, id, now, open), u) == ReadyIds(q, u)
    ensures OwnIds(TryPromote(c, q, id, now, open), u) == OwnIds(q, u)
  {
    CountIsOwn(q, u);
    var q' := TryPromote(c, q, id, now, open);
    forall x ensures x in ReadyIds(q', u) <==> x in ReadyIds(q, u) {}
    forall x ensures x in OwnIds(q', u) <==> x in OwnIds(q, u) {}
  }

  lemma RemovedNone(c: Limits, q: Queue, dead: set<TicketId>, u: string)
    requires Inv(c, q) && forall id | id in dead :: id.Queued?
    requires OwnIds(q, u) <= OwnIds(RemoveAll(q, dead), u)
    ensures OwnIds(RemoveAll(q, dead), u) == OwnIds(q, u)
    ensures ReadyIds(RemoveAll(q, dead), u) == ReadyIds(q, u)
  {
    RemoveAllKeeps(c, q, dead);
    forall x ensures x in ReadyIds(RemoveAll(q, dead), u) <==> x in ReadyIds(q, u) {
      assert x in ReadyIds(q, u) ==> x in OwnIds(q, u);
    }
  }

  /** Main result: none of the tickets of a user who holds a full allowance of them becomes
      READY by any step that leaves the user all of them, whatever capacity is free. */
  lemma FullStepWaits(c: Limits, q: Queue, call: Call, now: int, open: set<string>, u: string)
    requires Inv(c, q) && StaysFull(c, q, Step(c, q, call, now, open), u)
    ensures ReadyIds(Step(c, q, call, now, open), u) == ReadyIds(q, u)
  {
    match call
    case InitiateOrEnqueue(request, v) =>
      assert Queued(q.nextTicket) !in q.tickets by { assert Queued(q.nextTicket) in q.tickets ==> TicketOk(q, Queued(q.nextTicket)); }
    case GetQueueStatus(id) => if id in q.tickets { KeptTicket(c, q, id, u); } FullNotTried(c, q, id, now, open, u);
    case CancelQueue(id) => if id in q.tickets { KeptTicket(c, q, id, u); }
    case PromoteNextCall => FullNotPromoted(c, q, 0, now, open, u);
    case QueueMaintenance => FullMaintained(c, q, now, open, u);
    case SessionEnds(session) =>
  }

  lemma KeptTicket(c: Limits, q: Queue, id: TicketId, u: string)
    requires Inv(c, q) && id in q.tickets
    ensures OwnIds(q, u) <= OwnIds(RemoveTicket(q, id), u) ==> ReadyIds(RemoveTicket(q, id), u) == ReadyIds(q, u)
  {
    assert TicketOk(q, id);
    RemoveIsPurge(c, q, id);
    if OwnIds(q, u) <= OwnIds(RemoveTicket(q, id), u) { RemovedNone(c, q, {id}, u); }
  }

  lemma {:induction false} PromoteKeepsOwn(c: Limits, q: Queue, i: nat, now: int, open: set<string>, u: string)
    requires Inv(c, q)
    ensures OwnIds(PromoteFrom(c, q, i, now, open), u) == OwnIds(q, u)
    decreases |q.waiting| - i
  {
    if i < |q.waiting| && HasCapacity(c, q, HeadSize(q)) {
      var id := q.waiting[0];
      if Promotable(c, q, id, open) { MakeReadyKeeps(c, q, id, now, open); }
      PromoteKeepsOwn(c, TryPromote(c, q, id, now, open), i + 1, now, open, u);
    }
  }

  lemma FullMaintained(c: Limits, q: Queue, now: int, open: set<string>, u: string)
    requires Inv(c, q) && StaysFull(c, q, Maintain(c, q, now, open), u)
    ensures ReadyIds(Maintain(c, q, now, open), u) == ReadyIds(q, u)
  {
    var q1, q2 := Purged(c, q, now);
    var d1 := set id | id in q.tickets && ClaimLost(c, q.tickets[id], now);
    var d2 := set id | id in q1.tickets && Outdated(q1.tickets[id], now);
    PromoteKeepsOwn(c, q2, 0, now, open, u);
    forall id | id in d1 ensures id.Queued? { assert TicketOk(q, id); }
    forall id | id in d2 ensures id.Queued? { assert TicketOk(q1, id); }
    RemoveAllKeeps(c, q, d1);
    RemoveAllKeeps(c, q1, d2);
    RemovedNone(c, q, d1, u);
    RemovedNone(c, q1, d2, u);
    FullNotPromoted(c, q2, 0, now, open, u);
  }

  predicate FullThroughout(c: Limits, q: Queue, events: seq<Event>, u: string)
    decreases |events|
  {
    events != [] ==>
      var e := events[0];
      var q1 := Step(c, q, e.call, e.now, e.open);
      StaysFull(c, q, q1, u) && FullThroughout(c, q1, events[1..], u)
  }

  /** The same over runs: only a cancelled or expired ticket can unblock such a user. */
  lemma {:induction false} FullUserStarves(c: Limits, q: Queue, events: seq<Event>, u: string)
    requires Inv(c, q) && FullThroughout(c, q, events, u)
    ensures ReadyIds(Run(c, q, events), u) == ReadyIds(q, u)
    decreases |events|
  {
    if events != [] {
      var e := events[0];
      StepKeeps(c, q, e.call, e.now, e.open);
      FullStepWaits(c, q, e.call, e.now, e.open, u);
      FullUserStarves(c, Step(c, q, e.call, e.now, e.open), events[1..], u);
    }
  }

  // ------------------------------------------------------------------ sessions opened at once

  function Repeat(e: Event, k: nat): seq<Event> {
    if k == 0 then [] else [e] + Repeat(e, k - 1)
  }

  lemma RunRepeat(c: Limits, q: Queue, e: Event, k: nat)
    requires k > 0
    ensures Run(c, q, Repeat(e, k)) == Run(c, Step(c, q, e.call, e.now, e.open), Repeat(e, k - 1))
  {
    assert Repeat(e, k)[1..] == Repeat(e, k - 1);
  }

  predicate DirectRequest(c: Limits, e: Event) {
    e.call.InitiateOrEnqueue? && Accepted(e.open, e.call.request) && e.call.request.totalSize <= c.maxFile
  }

  /** Requests of a user with allowance left are admitted at once while there is capacity,
      and use up no allowance. */
  lemma DirectStep(c: Limits, q: Queue, e: Event)
    requires Inv(c, q) && DirectRequest(c, e) && |OwnIds(q, e.call.user)| < c.perUser && HasCapacity(c, q, e.call.request.totalSize)
    ensures var q1 := Step(c, q, e.call, e.now, e.open);
            && q1 == Admit(q, e.call.request, e.call.user) && Inv(c, q1) && OwnIds(q1, e.call.user) == OwnIds(q, e.call.user)
            && TotalBytes(q1.sessions) == TotalBytes(q.sessions) + e.call.request.totalSize
            && Tracked(q1.users, e.call.user, Direct(q.nextSession))
            && forall id | Tracked(q.users, e.call.user, id) :: Tracked(q1.users, e.call.user, id)
  {
    CountIsOwn(q, e.call.user);
    TotalAppend(q.sessions, Session(q.nextSession, e.call.request.totalSize));
    StepKeeps(c, q, e.call, e.now, e.open);
  }

  /** The sessions of k requests of one size. */
  function NewSessions(first: nat, k: nat, size: nat): seq<Session> {
    seq(k, i requires 0 <= i < k => Session(first + i, size))
  }

  /** The state after k of these requests: the line is as before, and the user has k more
      sessions. */
  ghost predicate AllAdmitted(q: Queue, end: Queue, u: string, k: nat, size: nat) {
    && end.sessions == q.sessions + NewSessions(q.nextSession, k, size)
    && end.tickets == q.tickets && end.waiting == q.waiting
    && (forall j | q.nextSession <= j < q.nextSession + k :: Tracked(end.users, u, Direct(j)))
    && (forall id | Tracked(q.users, u, id) :: Tracked(end.users, u, id))
  }

  /** q1 is q with one session more, the user's. */
  ghost predicate OneAdmitted(q: Queue, q1: Queue, u: string, size: nat) {
    && q1.nextSession == q.nextSession + 1 && q1.sessions == q.sessions + [Session(q.nextSession, size)]
    && q1.tickets == q.tickets && q1.waiting == q.waiting
    && Tracked(q1.users, u, Direct(q.nextSession))
    && (forall id | Tracked(q.users, u, id) :: Tracked(q1.users, u, id))
  }

  lemma AdmittedFirst(q: Queue, q1: Queue, end: Queue, u: string, k: nat, size: nat)
    requires OneAdmitted(q, q1, u, size) && AllAdmitted(q1, end, u, k, size)
    ensures AllAdmitted(q, end, u, k + 1, size)
  {
    assert [Session(q.nextSession, size)] + NewSessions(q1.nextSession, k, size) == NewSessions(q.nextSession, k + 1, size);
    forall j | q.nextSession <= j < q.nextSession + k + 1 ensures Tracked(end.users, u, Direct(j)) {
      assert j == q.nextSession || q1.nextSession <= j < q1.nextSession + k;
    }
  }

  predicate Room(c: Limits, q: Queue, k: nat, size: nat) {
    |q.sessions| + k <= c.maxSessions && TotalBytes(q.sessions) + k * size <= c.maxBytes
  }

  /** The user has allowance left, and the service room for k such requests. */
  ghost predicate MayAsk(c: Limits, q: Queue, e: Event, k: nat) {
    Inv(c, q) && DirectRequest(c, e) && |OwnIds(q, e.call.user)| < c.perUser && Room(c, q, k, e.call.request.totalSize)
  }

  /** All k were admitted and nothing else happened. */
  ghost predicate Took(c: Limits, q: Queue, end: Queue, e: Event, k: nat) {
    && DirectRequest(c, e) && AllAdmitted(q, end, e.call.user, k, e.call.request.totalSize)
    && TotalBytes(end.sessions) == TotalBytes(q.sessions) + k * e.call.request.totalSize
  }

  /** The first of k requests leaves room for the others. */
  lemma DirectFirst(c: Limits, q: Queue, e: Event, k: nat) returns (q1: Queue)
    requires MayAsk(c, q, e, k) && k > 0
    ensures MayAsk(c, q1, e, k - 1) && Run(c, q, Repeat(e, k)) == Run(c, q1, Repeat(e, k - 1))
    ensures OneAdmitted(q, q1, e.call.user, e.call.request.totalSize)
    ensures TotalBytes(q1.sessions) + (k - 1) * e.call.request.totalSize == TotalBytes(q.sessions) + k * e.call.request.totalSize
  {
    q1 := Admit(q, e.call.request, e.call.user);
    hide Inv, OwnIds, Accepted, Tracked, TotalBytes, Step, Repeat, Run;
    Enough(k, e.call.request.totalSize, TotalBytes(q.sessions));
    DirectStep(c, q, e);
    RunRepeat(c, q, e, k);
  }

  lemma TookFirst(c: Limits, q: Queue, q1: Queue, end: Queue, e: Event, k: nat)
    requires k > 0 && Took(c, q1, end, e, k - 1) && OneAdmitted(q, q1, e.call.user, e.call.request.totalSize)
    requires TotalBytes(q1.sessions) + (k - 1) * e.call.request.totalSize == TotalBytes(q.sessions) + k * e.call.request.totalSize
    ensures Took(c, q, end, e, k)
  {
    AdmittedFirst(q, q1, end, e.call.user, k - 1, e.call.request.totalSize);
    hide OneAdmitted, AllAdmitted, TotalBytes;
  }

  lemma NoneTook(c: Limits, q: Queue, e: Event)
    requires MayAsk(c, q, e, 0)
    ensures Took(c, q, Run(c, q, Repeat(e, 0)), e, 0)
  {
    assert NewSessions(q.nextSession, 0, e.call.request.totalSize) == [];
    hide Inv, TotalBytes, OwnIds;
  }

  /** The limit does not bound sessions opened at once: from any reachable state, a user who
      may ask at all can take every session and byte that the service has left. */
  lemma {:induction false} DirectUncounted(c: Limits, q: Queue, e: Event, k: nat)
    requires MayAsk(c, q, e, k)
    ensures Took(c, q, Run(c, q, Repeat(e, k)), e, k)
    decreases k
  {
    hide MayAsk, Took, OneAdmitted, Run, Repeat;
    if k == 0 {
      NoneTook(c, q, e);
    } else {
      var q1 := DirectFirst(c, q, e, k);
      DirectUncounted(c, q1, e, k - 1);
      TookFirst(c, q, q1, Run(c, q1, Repeat(e, k - 1)), e, k);
    }
  }

  lemma Enough(k: nat, size: nat, total: nat)
    requires k > 0
    ensures total + size <= total + k * size == (total + size) + (k - 1) * size
  {}

  // ------------------------------------------------------------------ when a ticket can become READY

  /** With a limit of one (or none) per user, no ticket of the line is ever READY: a waiting
      ticket already uses up its user's allowance. */
  lemma NeverReady(c: Limits, events: seq<Event>, id: TicketId)
    requires c.perUser <= 1
    ensures var q := Run(c, EMPTY, events); id in q.tickets ==> q.tickets[id].status == WAITING
  {
    StartsSafe(c);
    RunsAreSafe(c, EMPTY, events);
    var q := Run(c, EMPTY, events);
    if id in q.tickets {
      assert TicketOk(q, id);
      var u := q.tickets[id].user;
      assert ReadyBelow(c, q, u);
      assert q.tickets[id].status == READY ==> id in ReadyIds(q, u);
    }
  }

  /** What the limits say about a ticket that exists, and about one that became READY. */
  predicate Sane(c: Limits, t: Ticket) {
    && c.maxQueue > 0 && t.request.totalSize <= c.maxFile
    && (t.status == READY ==> c.maxSessions > 0 && MULTIPART_MIN_FILE_SIZE <= t.request.totalSize <= c.maxBytes)
  }

  predicate AllSane(c: Limits, q: Queue) {
    forall id :: id in q.tickets ==> Sane(c, q.tickets[id])
  }

  lemma TriedSane(c: Limits, q: Queue, id: TicketId, now: int, open: set<string>)
    requires AllSane(c, q)
    ensures AllSane(c, TryPromote(c, q, id, now, open))
  {
    hide CountedIds, RemoveFirst, TotalBytes;
    if Promotable(c, q, id, open) { assert Sane(c, q.tickets[id]); }
  }

  lemma {:induction false} PromotedSane(c: Limits, q: Queue, i: nat, now: int, open: set<string>)
    requires AllSane(c, q)
    ensures AllSane(c, PromoteFrom(c, q, i, now, open))
    decreases |q.waiting| - i
  {
    if i < |q.waiting| && HasCapacity(c, q, HeadSize(q)) {
      TriedSane(c, q, q.waiting[0], now, open);
      hide TryPromote, AllSane;
      PromotedSane(c, TryPromote(c, q, q.waiting[0], now, open), i + 1, now, open);
    }
  }

  lemma StepSane(c: Limits, q: Queue, call: Call, now: int, open: set<string>)
    requires AllSane(c, q)
    ensures AllSane(c, Step(c, q, call, now, open))
  {
    hide CountedIds, HasCapacity, Accepted, PromoteFrom, TryPromote, RemoveFirst, Without, Sane, Track, Untrack, DropSession;
    match call
    case InitiateOrEnqueue(request, u) => EnqueuedSane(c, q, request, u, now, open);
    case GetQueueStatus(id) => TriedSane(c, q, id, now, open);
    case CancelQueue(id) =>
    case PromoteNextCall => PromotedSane(c, q, 0, now, open);
    case QueueMaintenance =>
      var q1 := RemoveAll(q, set id | id in q.tickets && ClaimLost(c, q.tickets[id], now));
      var q2 := RemoveAll(q1, set id | id in q1.tickets && Outdated(q1.tickets[id], now));
      assert AllSane(c, q2);
      PromotedSane(c, q2, 0, now, open);
    case SessionEnds(session) =>
  }

  lemma EnqueuedSane(c: Limits, q: Queue, request: Request, u: string, now: int, open: set<string>)
    requires AllSane(c, q)
    ensures AllSane(c, Initiate(c, q, request, u, now, open))
  {
    hide CountedIds, HasCapacity, Accepted, Track;
  }

  lemma {:induction false} RunSane(c: Limits, q: Queue, events: seq<Event>)
    requires AllSane(c, q)
    ensures AllSane(c, Run(c, q, events))
    decreases |events|
  {
    if events != [] {
      var e := events[0];
      StepSane(c, q, e.call, e.now, e.open);
      hide AllSane, Step;
      RunSane(c, Step(c, q, e.call, e.now, e.open), events[1..]);
    }
  }

  lemma {:induction false} RunAppend(c: Limits, q: Queue, a: seq<Event>, b: seq<Event>)
    ensures Run(c, q, a + b) == Run(c, Run(c, q, a), b)
    decreases |a|
  {
    hide Step;
    if a == [] {
      assert a + b == b;
    } else {
      assert (a + b)[1..] == a[1..] + b && (a + b)[0] == a[0];
      RunAppend(c, Step(c, q, a[0].call, a[0].now, a[0].open), a[1..], b);
    }
  }

  predicate SomeReady(q: Queue) {
    exists id :: id in q.tickets && q.tickets[id].status == READY
  }

  /** The configuration admits a session of the smallest size, a waiting ticket beside it,
      and a second ticket per user. */
  predicate Usable(c: Limits) {
    && c.perUser >= 2 && c.maxSessions > 0 && c.maxQueue > 0
    && MULTIPART_MIN_FILE_SIZE <= c.maxFile && MULTIPART_MIN_FILE_SIZE <= c.maxBytes
  }

  /** How many sessions of the smallest size fit. */
  function Fill(c: Limits): nat {
    if c.maxSessions <= c.maxBytes / MULTIPART_MIN_FILE_SIZE then c.maxSessions else c.maxBytes / MULTIPART_MIN_FILE_SIZE
  }

  lemma FillFits(c: Limits)
    requires Usable(c)
    ensures 0 < Fill(c) <= c.maxSessions && Fill(c) * MULTIPART_MIN_FILE_SIZE <= c.maxBytes
    ensures Fill(c) == c.maxSessions || (Fill(c) + 1) * MULTIPART_MIN_FILE_SIZE > c.maxBytes
  {}

  const SMALLEST := Event(InitiateOrEnqueue(Request("f", MULTIPART_MIN_FILE_SIZE), "u"), 0, {"f"})
  function Ends(session: nat): Event { Event(SessionEnds(session), 0, {}) }

  const ROUND := Event(PromoteNextCall, 0, {"f"})

  /** Ending the last session frees its place and its bytes. */
  lemma LastEnds(sessions: seq<Session>)
    requires sessions != []
    ensures var x := sessions[|sessions| - 1];
            |DropSession(sessions, x.id)| < |sessions|
            && TotalBytes(DropSession(sessions, x.id)) <= TotalBytes(sessions) - x.totalSize
  {
    var n := |sessions| - 1;
    assert DropSession(sessions, sessions[n].id) == DropSession(sessions[..n], sessions[n].id);
  }

  /** With all capacity taken the next request waits. */
  lemma NextWaits(c: Limits, q: Queue)
    requires Usable(c) && q.tickets == map[] && q.waiting == [] && |q.sessions| == Fill(c)
    requires TotalBytes(q.sessions) == Fill(c) * MULTIPART_MIN_FILE_SIZE
    ensures Step(c, q, SMALLEST.call, SMALLEST.now, SMALLEST.open) == Enqueue(c, q, SMALLEST.call.request, "u", 0)
  {
    FillFits(c);
    hide CountedIds, TotalBytes;
    assert !HasCapacity(c, q, MULTIPART_MIN_FILE_SIZE);
  }

  /** A lone waiting ticket of this size is promoted as soon as there is capacity. */
  lemma LonePromoted(c: Limits, q: Queue, id: TicketId)
    requires c.perUser >= 2 && q.waiting == [id] && id in q.tickets && q.tickets.Keys == {id}
    requires q.tickets[id].status == WAITING && q.tickets[id].request == SMALLEST.call.request
    requires HasCapacity(c, q, MULTIPART_MIN_FILE_SIZE)
    ensures SomeReady(Step(c, q, ROUND.call, ROUND.now, ROUND.open))
  {
    var u := q.tickets[id].user;
    assert CountedIds(q, u) <= {id};
    SmallerSet(CountedIds(q, u), {id});
    assert Promotable(c, q, id, {"f"});
    var q1 := MakeReady(q, id, 0);
    assert q1.tickets[id].status == READY;
    assert TryPromote(c, q, id, 0, {"f"}) == q1 && PromoteFrom(c, q1, 1, 0, {"f"}) == q1;
  }

  lemma ReadyFrom(c: Limits, q: Queue)
    requires Usable(c) && q.tickets == map[] && q.waiting == [] && |q.sessions| == Fill(c) > 0
    requires TotalBytes(q.sessions) == Fill(c) * MULTIPART_MIN_FILE_SIZE
    requires q.sessions[|q.sessions| - 1].totalSize == MULTIPART_MIN_FILE_SIZE
    ensures SomeReady(Run(c, q, [SMALLEST, Ends(q.sessions[|q.sessions| - 1].id), ROUND]))
  {
    var x := q.sessions[|q.sessions| - 1];
    NextWaits(c, q);
    var q1 := Step(c, q, SMALLEST.call, SMALLEST.now, SMALLEST.open);
    var q2 := Step(c, q1, Ends(x.id).call, 0, {});
    LastEnds(q.sessions);
    FillFits(c);
    LonePromoted(c, q2, Queued(q.nextTicket));
    RunThree(c, q, SMALLEST, Ends(x.id), ROUND);
  }

  lemma RunThree(c: Limits, q: Queue, a: Event, b: Event, d: Event)
    ensures Run(c, q, [a, b, d]) ==
            Step(c, Step(c, Step(c, q, a.call, a.now, a.open), b.call, b.now, b.open), d.call, d.now, d.open)
  {
    hide Step;
    assert [a, b, d][1..] == [b, d] && [b, d][1..] == [d] && [d][1..] == [];
    var q1 := Step(c, q, a.call, a.now, a.open);
    var q2 := Step(c, q1, b.call, b.now, b.open);
    assert Run(c, q2, [d]) == Run(c, Step(c, q2, d.call, d.now, d.open), []);
    assert Run(c, q1, [b, d]) == Run(c, q2, [d]);
  }

  /** With k sessions of the smallest size from the start, the line is empty. */
  lemma FilledUp(c: Limits)
    requires Usable(c)
    ensures var k := Fill(c); var q := Run(c, EMPTY, Repeat(SMALLEST, k));
            && q.tickets == map[] && q.waiting == [] && q.sessions == NewSessions(0, k, MULTIPART_MIN_FILE_SIZE)
            && TotalBytes(q.sessions) == k * MULTIPART_MIN_FILE_SIZE
  {
    FillFits(c);
    StartsSafe(c);
    assert OwnIds(EMPTY, "u") == {};
    DirectUncounted(c, EMPTY, SMALLEST, Fill(c));
    hide Run, Repeat, Inv, Fill;
  }

  /** Fill the service, let one ticket wait, end a session, and run a round. */
  lemma ReadyReached(c: Limits)
    requires Usable(c)
    ensures exists events :: SomeReady(Run(c, EMPTY, events))
  {
    var k := Fill(c);
    FillFits(c);
    FilledUp(c);
    hide Run, Repeat, TotalBytes, SomeReady;
    var q := Run(c, EMPTY, Repeat(SMALLEST, k));
    ReadyFrom(c, q);
    var rest := [SMALLEST, Ends(q.sessions[k - 1].id), ROUND];
    RunAppend(c, EMPTY, Repeat(SMALLEST, k), rest);
    assert SomeReady(Run(c, EMPTY, Repeat(SMALLEST, k) + rest));
  }

  /** A ticket of the line can become READY at all iff the configuration is usable: two
      tickets per user, a place in line, and one session of the smallest size. */
  lemma ReadyIffUsable(c: Limits)
    ensures (exists events :: SomeReady(Run(c, EMPTY, events))) <==> Usable(c)
  {
    if Usable(c) { ReadyReached(c); }
    forall events | SomeReady(Run(c, EMPTY, events)) ensures Usable(c) {
      var q := Run(c, EMPTY, events);
      var id :| id in q.tickets && q.tickets[id].status == READY;
      RunSane(c, EMPTY, events);
      assert Sane(c, q.tickets[id]);
      if c.perUser <= 1 { NeverReady(c, events, id); }
    }
  }
}
