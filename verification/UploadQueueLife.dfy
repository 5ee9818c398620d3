/** How long a ticket lives: when exactly each call removes one, and what it keeps of those
    that stay. */
module UploadQueueLife {
  import opened Wrappers
  import opened UploadQueue
  import opened UploadQueueSafety

  /** Same owner, request and expiry, and no way back from READY. */
  predicate SameTicket(a: Ticket, b: Ticket) {
    && b.user == a.user && b.request == a.request && b.expiresAt == a.expiresAt
    && (b == a || (a.status == WAITING && b.status == READY))
  }

  predicate Stays(q: Queue, q': Queue, id: TicketId) {
    id in q.tickets && id in q'.tickets && SameTicket(q.tickets[id], q'.tickets[id])
  }

  lemma {:induction false} PromotionStays(c: Limits, q: Queue, i: nat, now: int, open: set<string>, id: TicketId)
    ensures id in q.tickets ==> Stays(q, PromoteFrom(c, q, i, now, open), id)
    ensures id !in q.tickets ==> id !in PromoteFrom(c, q, i, now, open).tickets
    decreases |q.waiting| - i
  {
    if i < |q.waiting| && HasCapacity(c, q, HeadSize(q)) {
      PromotionStays(c, TryPromote(c, q, q.waiting[0], now, open), i + 1, now, open, id);
    }
  }

  /** The ticket became READY longer ago than the claim time. */
  predicate Unclaimed(c: Limits, t: Ticket, now: int) { t.readyAt.Some? && now > t.readyAt.value + c.claim }

  /** The one call that can end a ticket at this moment. */
  predicate Ends(c: Limits, t: Ticket, id: TicketId, call: Call, now: int) {
    || call == CancelQueue(id)
    || (call == GetQueueStatus(id) && (now > t.expiresAt || Unclaimed(c, t, now)))
    || (call == QueueMaintenance && (Unclaimed(c, t, now) || (t.status == WAITING && now > t.expiresAt)))
  }

  lemma MaintenanceEnds(c: Limits, q: Queue, now: int, open: set<string>, id: TicketId)
    requires Inv(c, q) && id in q.tickets
    ensures var gone := Ends(c, q.tickets[id], id, QueueMaintenance, now);
            if gone then id !in Maintain(c, q, now, open).tickets else Stays(q, Maintain(c, q, now, open), id)
  {
    assert TicketOk(q, id);
    var q1 := RemoveAll(q, set x | x in q.tickets && ClaimLost(c, q.tickets[x], now));
    var q2 := RemoveAll(q1, set x | x in q1.tickets && Outdated(q1.tickets[x], now));
    PromotionStays(c, q2, 0, now, open, id);
  }

  lemma AdmissionStays(c: Limits, q: Queue, request: Request, u: string, now: int, open: set<string>, id: TicketId)
    requires Inv(c, q) && id in q.tickets
    ensures Stays(q, Initiate(c, q, request, u, now, open), id)
  {
    assert TicketOk(q, id);
    hide Inv, CountedIds, HasCapacity, Accepted, Track;
  }

  lemma PollEnds(c: Limits, q: Queue, polled: TicketId, now: int, open: set<string>, id: TicketId)
    requires Inv(c, q) && id in q.tickets
    ensures var q' := Poll(c, q, polled, now, open);
            if Ends(c, q.tickets[id], id, GetQueueStatus(polled), now) then id !in q'.tickets else Stays(q, q', id)
  {
    assert TicketOk(q, id);
    hide Inv, Promotable, Untrack, RemoveFirst;
  }

  lemma CancelEnds(c: Limits, q: Queue, cancelled: TicketId, id: TicketId)
    requires Inv(c, q) && id in q.tickets
    ensures if cancelled == id then id !in Cancel(q, cancelled).tickets else Stays(q, Cancel(q, cancelled), id)
  {
    assert TicketOk(q, id);
    hide Inv, Untrack, RemoveFirst;
  }

  /** Main result: a ticket is removed by exactly these calls at these times; through every
      other call it keeps its owner, its request and its expiry. So a waiting ticket that is
      not cancelled lives until its expiry, and a READY one until it is polled after its
      expiry or its claim time has passed. */
  lemma RemovedExact(c: Limits, q: Queue, call: Call, now: int, open: set<string>, id: TicketId)
    requires Inv(c, q) && id in q.tickets
    ensures if Ends(c, q.tickets[id], id, call, now) then id !in Step(c, q, call, now, open).tickets
            else Stays(q, Step(c, q, call, now, open), id)
  {
    hide Inv, Initiate, Poll, Cancel, PromoteFrom, Maintain, DropSession;
    match call
    case InitiateOrEnqueue(request, u) => AdmissionStays(c, q, request, u, now, open, id);
    case GetQueueStatus(polled) => PollEnds(c, q, polled, now, open, id);
    case CancelQueue(cancelled) => CancelEnds(c, q, cancelled, id);
    case PromoteNextCall => PromotionStays(c, q, 0, now, open, id);
    case QueueMaintenance => MaintenanceEnds(c, q, now, open, id);
    case SessionEnds(session) =>
  }

  /** The admission of a request that is neither too large nor admitted at once, while there
      is room in line. */
  predicate Queues(c: Limits, q: Queue, request: Request, u: string) {
    && request.totalSize <= c.maxFile && |q.waiting| < c.maxQueue
    && (|CountedIds(q, u)| >= c.perUser || |q.sessions| >= c.maxSessions || TotalBytes(q.sessions) + request.totalSize > c.maxBytes)
  }

  /** A ticket comes into being by exactly such an admission: last in line, with the full
      waiting time before it. */
  lemma BornExact(c: Limits, q: Queue, call: Call, now: int, open: set<string>, id: TicketId)
    requires Inv(c, q) && id !in q.tickets
    ensures var q' := Step(c, q, call, now, open);
            && (id in q'.tickets <==> call.InitiateOrEnqueue? && Queues(c, q, call.request, call.user) && id == Queued(q.nextTicket))
            && (id in q'.tickets ==>
                  && q'.tickets[id] == Ticket(call.user, WAITING, call.request, None, None, now + c.ttl)
                  && q'.waiting == q.waiting + [id] && q'.sessions == q.sessions)
  {
    match call
    case InitiateOrEnqueue(request, u) =>
    case GetQueueStatus(other) =>
    case CancelQueue(other) =>
    case PromoteNextCall => PromotionStays(c, q, 0, now, open, id);
    case QueueMaintenance =>
      var q1 := RemoveAll(q, set x | x in q.tickets && ClaimLost(c, q.tickets[x], now));
      var q2 := RemoveAll(q1, set x | x in q1.tickets && Outdated(q1.tickets[x], now));
      PromotionStays(c, q2, 0, now, open, id);
    case SessionEnds(session) =>
  }

  /** A poll makes its own waiting ticket READY iff it has not expired, its user is below the
      limit, the service has room for it and `initiate` accepts it; it moves no other ticket. */
  lemma PolledExact(c: Limits, q: Queue, id: TicketId, now: int, open: set<string>, other: TicketId)
    requires Inv(c, q) && id in q.tickets && q.tickets[id].status == WAITING
    ensures var t, q' := q.tickets[id], Step(c, q, GetQueueStatus(id), now, open);
            && (id in q'.tickets && q'.tickets[id].status == READY <==>
                  && now <= t.expiresAt && |CountedIds(q, t.user)| < c.perUser
                  && |q.sessions| < c.maxSessions && TotalBytes(q.sessions) + t.request.totalSize <= c.maxBytes
                  && t.request.totalSize >= 100 * 1024 * 1024 && t.request.folder in open)
            && (other != id ==> (other in q'.tickets <==> other in q.tickets)
                                && (other in q.tickets ==> q'.tickets[other] == q.tickets[other]))
  {}

  /** A request is admitted at once iff it is not too large, its user is below the limit, the
      service has room and `initiate` accepts it: one session of its size, tracked for the user. */
  lemma AdmittedExact(c: Limits, q: Queue, request: Request, u: string, now: int, open: set<string>)
    ensures var q' := Step(c, q, InitiateOrEnqueue(request, u), now, open);
            if && request.totalSize <= c.maxFile && |CountedIds(q, u)| < c.perUser
               && |q.sessions| < c.maxSessions && TotalBytes(q.sessions) + request.totalSize <= c.maxBytes
               && request.totalSize >= 100 * 1024 * 1024 && request.folder in open
            then q'.sessions == q.sessions + [Session(q.nextSession, request.totalSize)] && q'.nextSession == q.nextSession + 1
                 && Tracked(q'.users, u, Direct(q.nextSession)) && q'.tickets == q.tickets && q'.waiting == q.waiting
            else q'.sessions == q.sessions
  {}

  predicate NeverCancelled(events: seq<Event>, id: TicketId, until: int) {
    forall k | 0 <= k < |events| :: events[k].call != CancelQueue(id) && events[k].now <= until
  }

  /** A ready ticket in the run is not left unclaimed for too long. */
  predicate ClaimedInTime(c: Limits, q: Queue, events: seq<Event>, id: TicketId)
    decreases |events|
  {
    events != [] ==>
      (id in q.tickets ==> !Unclaimed(c, q.tickets[id], events[0].now))
      && ClaimedInTime(c, Step(c, q, events[0].call, events[0].now, events[0].open), events[1..], id)
  }

  lemma SameTrans(a: Ticket, b: Ticket, d: Ticket)
    requires SameTicket(a, b) && SameTicket(b, d)
    ensures SameTicket(a, d)
  {}

  /** Over runs: until its expiry nothing but its own cancellation or an unclaimed READY ends it. */
  lemma {:induction false} LivesUntilExpiry(c: Limits, q: Queue, events: seq<Event>, id: TicketId)
    requires Inv(c, q) && id in q.tickets
    requires NeverCancelled(events, id, q.tickets[id].expiresAt) && ClaimedInTime(c, q, events, id)
    ensures Stays(q, Run(c, q, events), id)
    decreases |events|
  {
    if events != [] {
      var e := events[0];
      var q1 := Step(c, q, e.call, e.now, e.open);
      assert events[0].call != CancelQueue(id);
      StepKeeps(c, q, e.call, e.now, e.open);
      RemovedExact(c, q, e.call, e.now, e.open, id);
      forall k | 0 <= k < |events[1..]|
        ensures events[1..][k].call != CancelQueue(id) && events[1..][k].now <= q1.tickets[id].expiresAt
      { assert events[1..][k] == events[k + 1]; }
      LivesUntilExpiry(c, q1, events[1..], id);
      SameTrans(q.tickets[id], q1.tickets[id], Run(c, q1, events[1..]).tickets[id]);
    }
  }
}
