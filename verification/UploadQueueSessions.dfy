/** Which upload session belongs to whom: ids are given out once, and a ticket carries the id
    of the session that was opened for it. */
module UploadQueueSessions {
  import opened Wrappers
  import opened UploadQueue
  import opened UploadQueueSafety

  predicate Carries(q: Queue, id: TicketId, n: nat) {
    id in q.tickets && q.tickets[id].session == Some(n)
  }

  predicate Below(q: Queue, n: nat) { n < q.nextSession }

  /** Live sessions have different ids, all given out before. */
  ghost predicate RowsOk(sessions: seq<Session>, next: nat) {
    && (forall x :: x in sessions ==> x.id < next)
    && (forall i, j :: 0 <= i < j < |sessions| ==> sessions[i].id != sessions[j].id)
  }

  /** A live session that the ticket carries has the size the ticket asked for. */
  predicate SizeOk(q: Queue, id: TicketId, x: Session) {
    x in q.sessions && Carries(q, id, x.id) ==> x.totalSize == q.tickets[id].request.totalSize
  }

  /** A ticket's session was given out before, to no other ticket, and if it is live it has
      the size the ticket asked for. */
  ghost predicate TicketSessions(q: Queue) {
    && (forall id, n: nat {:trigger Carries(q, id, n)} :: Carries(q, id, n) ==> Below(q, n))
    && (forall id, id2, n: nat {:trigger Carries(q, id, n), Carries(q, id2, n)} :: Carries(q, id, n) && Carries(q, id2, n) ==> id == id2)
    && (forall id, x {:trigger SizeOk(q, id, x)} :: SizeOk(q, id, x))
  }

  /** A session opened at once was given out before, to one user and to no ticket. */
  ghost predicate DirectSessions(q: Queue) {
    && (forall u, n: nat {:trigger Tracked(q.users, u, Direct(n))} :: Tracked(q.users, u, Direct(n)) ==> Below(q, n))
    && (forall u, id, n: nat {:trigger Tracked(q.users, u, Direct(n)), Carries(q, id, n)} :: Tracked(q.users, u, Direct(n)) ==> !Carries(q, id, n))
    && (forall u, v, n: nat {:trigger Tracked(q.users, u, Direct(n)), Tracked(q.users, v, Direct(n))} ::
          Tracked(q.users, u, Direct(n)) && Tracked(q.users, v, Direct(n)) ==> u == v)
  }

  ghost predicate SessionsOk(q: Queue) {
    RowsOk(q.sessions, q.nextSession) && TicketSessions(q) && DirectSessions(q)
  }

  /** The session is the ticket's own: no other ticket carries it, and it was not opened
      directly. */
  ghost predicate OwnSession(q: Queue, id: TicketId, n: nat) {
    && Carries(q, id, n) && Below(q, n)
    && (forall id2 :: Carries(q, id2, n) ==> id2 == id)
    && (forall u :: !Tracked(q.users, u, Direct(n)))
  }

  /** A promotion opens exactly one session, of the ticket's size, under an id no live session
      has, and the ticket carries that id; owner, request and expiry stay, and so do all
      other tickets. */
  lemma PromotionOpens(c: Limits, q: Queue, id: TicketId, now: int, open: set<string>)
    requires SessionsOk(q) && Promotable(c, q, id, open)
    ensures var q' := TryPromote(c, q, id, now, open);
            && |q'.sessions| == |q.sessions| + 1 && q'.sessions[..|q.sessions|] == q.sessions
            && var row := q'.sessions[|q.sessions|];
               && row.totalSize == q.tickets[id].request.totalSize
               && (forall i :: 0 <= i < |q.sessions| ==> q.sessions[i].id != row.id)
               && q'.tickets == q.tickets[id := Ticket(q.tickets[id].user, READY, q.tickets[id].request, Some(row.id), Some(now), q.tickets[id].expiresAt)]
  {
    hide CountedIds, HasCapacity, Accepted, TotalBytes, RemoveFirst;
  }

  /** A new session under the next id. */
  lemma OpenRows(q: Queue, size: nat)
    requires RowsOk(q.sessions, q.nextSession)
    ensures RowsOk(OpenSession(q, size).sessions, q.nextSession + 1)
    ensures forall x :: x in OpenSession(q, size).sessions <==> x in q.sessions || x == Session(q.nextSession, size)
  {
    var s2 := OpenSession(q, size).sessions;
    assert s2 == q.sessions + [Session(q.nextSession, size)];
    forall i, j | 0 <= i < j < |s2| ensures s2[i].id != s2[j].id {
      assert s2[i] in q.sessions;
    }
  }

  lemma AdmitSessions(q: Queue, request: Request, u: string)
    requires SessionsOk(q)
    ensures SessionsOk(Admit(q, request, u))
  {
    var q' := Admit(q, request, u);
    OpenRows(q, request.totalSize);
    forall id, n: nat ensures Carries(q', id, n) <==> Carries(q, id, n) {}
    forall v, n: nat ensures Tracked(q'.users, v, Direct(n)) <==> Tracked(q.users, v, Direct(n)) || (v == u && n == q.nextSession) {}
    forall n: nat ensures Below(q', n) <==> n == q.nextSession || Below(q, n) {}
    forall id, x ensures SizeOk(q', id, x) {
      assert SizeOk(q, id, x);
      assert Carries(q', id, x.id) ==> Carries(q, id, x.id) && Below(q, x.id);
    }
  }

  lemma MakeReadySessions(q: Queue, id: TicketId, now: int)
    requires SessionsOk(q) && id in q.tickets
    ensures SessionsOk(MakeReady(q, id, now))
  {
    var q', n0 := MakeReady(q, id, now), q.nextSession;
    OpenRows(q, q.tickets[id].request.totalSize);
    hide RemoveFirst;
    forall x, n: nat ensures Carries(q', x, n) <==> if x == id then n == n0 else Carries(q, x, n) {}
    forall n: nat ensures Below(q', n) <==> n == n0 || Below(q, n) {}
    forall y, x ensures SizeOk(q', y, x) {
      assert SizeOk(q, y, x);
      assert y != id && Carries(q', y, x.id) ==> Carries(q, y, x.id) && Below(q, x.id);
    }
  }

  lemma TryPromoteSessions(c: Limits, q: Queue, id: TicketId, now: int, open: set<string>)
    requires SessionsOk(q)
    ensures SessionsOk(TryPromote(c, q, id, now, open))
  {
    hide CountedIds, HasCapacity, Accepted, SessionsOk, MakeReady;
    if Promotable(c, q, id, open) { MakeReadySessions(q, id, now); }
  }

  lemma {:induction false} PromoteFromSessions(c: Limits, q: Queue, i: nat, now: int, open: set<string>)
    requires SessionsOk(q)
    ensures SessionsOk(PromoteFrom(c, q, i, now, open))
    decreases |q.waiting| - i
  {
    hide SessionsOk, TryPromote, HasCapacity;
    if i < |q.waiting| && HasCapacity(c, q, HeadSize(q)) {
      TryPromoteSessions(c, q, q.waiting[0], now, open);
      PromoteFromSessions(c, TryPromote(c, q, q.waiting[0], now, open), i + 1, now, open);
    }
  }

  /** Tickets, tracked ids and live sessions may only become fewer. */
  lemma FewerSessions(q: Queue, q': Queue)
    requires SessionsOk(q) && q'.nextSession == q.nextSession && RowsOk(q'.sessions, q'.nextSession)
    requires forall x :: x in q'.sessions ==> x in q.sessions
    requires forall id :: id in q'.tickets && q'.tickets[id].session.Some? ==> id in q.tickets && q'.tickets[id] == q.tickets[id]
    requires forall u, n: nat :: Tracked(q'.users, u, Direct(n)) ==> Tracked(q.users, u, Direct(n))
    ensures SessionsOk(q')
  {
    forall id, n: nat | Carries(q', id, n) ensures Carries(q, id, n) {}
    forall n: nat ensures Below(q', n) <==> Below(q, n) {}
    forall id, x ensures SizeOk(q', id, x) { assert SizeOk(q, id, x); }
    assert DirectSessions(q') by {
      forall u, id, n: nat | Tracked(q'.users, u, Direct(n)) ensures !Carries(q', id, n) { assert Tracked(q.users, u, Direct(n)); }
    }
  }

  lemma EnqueueSessions(c: Limits, q: Queue, request: Request, u: string, now: int)
    requires SessionsOk(q) && Queued(q.nextTicket) !in q.tickets
    ensures SessionsOk(Enqueue(c, q, request, u, now))
  {
    FewerSessions(q, Enqueue(c, q, request, u, now));
  }

  lemma RemoveSessions(q: Queue, id: TicketId)
    requires SessionsOk(q)
    ensures SessionsOk(RemoveTicket(q, id))
  {
    hide RemoveFirst;
    FewerSessions(q, RemoveTicket(q, id));
  }

  lemma RemoveAllSessions(q: Queue, dead: set<TicketId>)
    requires SessionsOk(q)
    ensures SessionsOk(RemoveAll(q, dead))
  {
    hide Without;
    FewerSessions(q, RemoveAll(q, dead));
  }

  lemma DropStep(sessions: seq<Session>, id: nat)
    requires sessions != []
    ensures var n := |sessions| - 1;
            DropSession(sessions, id) == DropSession(sessions[..n], id) + if sessions[n].id == id then [] else [sessions[n]]
  {}

  /** A session that ends is gone, and no other is. */
  lemma {:induction false} DropExact(sessions: seq<Session>, id: nat, x: Session)
    ensures x in DropSession(sessions, id) <==> x in sessions && x.id != id
  {
    if sessions != [] {
      var n := |sessions| - 1;
      DropExact(sessions[..n], id, x);
      DropStep(sessions, id);
      hide DropSession;
      assert sessions == sessions[..n] + [sessions[n]];
    }
  }

  lemma {:induction false} DropRows(sessions: seq<Session>, id: nat, next: nat)
    requires RowsOk(sessions, next)
    ensures RowsOk(DropSession(sessions, id), next)
  {
    if sessions != [] {
      var n := |sessions| - 1;
      DropRows(sessions[..n], id, next);
      DropStep(sessions, id);
      hide DropSession;
      forall x | x in DropSession(sessions[..n], id) ensures x in sessions && x.id != sessions[n].id {
        DropExact(sessions[..n], id, x);
        assert x in sessions[..n];
      }
    }
  }

  lemma EndSessions(q: Queue, session: nat)
    requires SessionsOk(q)
    ensures SessionsOk(q.(sessions := DropSession(q.sessions, session)))
  {
    forall x | x in DropSession(q.sessions, session) ensures x in q.sessions { DropExact(q.sessions, session, x); }
    DropRows(q.sessions, session, q.nextSession);
    FewerSessions(q, q.(sessions := DropSession(q.sessions, session)));
  }

  lemma StepSessions(c: Limits, q: Queue, call: Call, now: int, open: set<string>)
    requires Inv(c, q) && SessionsOk(q)
    ensures SessionsOk(Step(c, q, call, now, open))
  {
    assert Queued(q.nextTicket) !in q.tickets by { assert Queued(q.nextTicket) in q.tickets ==> TicketOk(q, Queued(q.nextTicket)); }
    hide Inv, SessionsOk, CountedIds, HasCapacity, Accepted, Admit, Enqueue, RemoveTicket, RemoveAll, TryPromote, PromoteFrom, DropSession;
    match call
    case InitiateOrEnqueue(request, u) =>
      EnqueueSessions(c, q, request, u, now);
      AdmitSessions(q, request, u);
    case GetQueueStatus(id) =>
      RemoveSessions(q, id);
      TryPromoteSessions(c, q, id, now, open);
    case CancelQueue(id) => RemoveSessions(q, id);
    case PromoteNextCall => PromoteFromSessions(c, q, 0, now, open);
    case QueueMaintenance =>
      var d1 := set id | id in q.tickets && ClaimLost(c, q.tickets[id], now);
      var q1 := RemoveAll(q, d1);
      var d2 := set id | id in q1.tickets && Outdated(q1.tickets[id], now);
      RemoveAllSessions(q, d1);
      RemoveAllSessions(q1, d2);
      PromoteFromSessions(c, RemoveAll(q1, d2), 0, now, open);
    case SessionEnds(session) => EndSessions(q, session);
  }

  /** Main result: over every run from the empty service, session ids are given out once, to
      one ticket or directly to one user. */
  lemma {:induction false} RunsOwnSessions(c: Limits, q: Queue, events: seq<Event>)
    requires Inv(c, q) && SessionsOk(q)
    ensures SessionsOk(Run(c, q, events))
    decreases |events|
  {
    hide SessionsOk, Inv, Step;
    if events != [] {
      var e := events[0];
      StepKeeps(c, q, e.call, e.now, e.open);
      StepSessions(c, q, e.call, e.now, e.open);
      RunsOwnSessions(c, Step(c, q, e.call, e.now, e.open), events[1..]);
    }
  }

  lemma StartOwnsSessions(c: Limits, events: seq<Event>)
    ensures Inv(c, Run(c, EMPTY, events)) && SessionsOk(Run(c, EMPTY, events))
  {
    StartsSafe(c);
    assert SessionsOk(EMPTY);
    hide SessionsOk, Inv;
    RunsAreSafe(c, EMPTY, events);
    RunsOwnSessions(c, EMPTY, events);
  }

  /** What a poll hands out as READY, in any run, is the ticket's own session. */
  lemma PolledOwnSession(c: Limits, events: seq<Event>, id: TicketId, now: int, open: set<string>)
    ensures var q := Step(c, Run(c, EMPTY, events), GetQueueStatus(id), now, open);
            id in q.tickets && q.tickets[id].status == READY ==>
              q.tickets[id].session.Some? && OwnSession(q, id, q.tickets[id].session.value)
  {
    StartOwnsSessions(c, events);
    var q0 := Run(c, EMPTY, events);
    StepKeeps(c, q0, GetQueueStatus(id), now, open);
    StepSessions(c, q0, GetQueueStatus(id), now, open);
    ReadyOwns(c, Step(c, q0, GetQueueStatus(id), now, open), id);
    hide Inv, SessionsOk, Step, Run, OwnSession;
  }

  lemma ReadyOwns(c: Limits, q: Queue, id: TicketId)
    requires Inv(c, q) && SessionsOk(q)
    ensures id in q.tickets && q.tickets[id].status == READY ==>
              q.tickets[id].session.Some? && OwnSession(q, id, q.tickets[id].session.value)
  {
    if id in q.tickets && q.tickets[id].status == READY {
      assert TicketOk(q, id);
      assert Carries(q, id, q.tickets[id].session.value);
    }
  }
}
