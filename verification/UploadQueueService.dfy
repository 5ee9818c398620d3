/** The admission queue as the server holds it: three fields updated in place, over the table
    of upload sessions. */
module UploadQueueService {
  import opened Wrappers
  import opened UploadQueue
  import opened UploadQueueSafety

  datatype Reply =
    | Active(session: nat)
    | Waiting(ticket: TicketId, position: nat)
    | ReadyReply(session: nat, claimDeadline: int)
    | Gone(status: Status)
    | Failed

  /** Live rows of the upload session table. */
  class SessionTable {
    var rows: seq<Session>
    var nextId: nat

    constructor ()
      ensures rows == [] && nextId == 0
    { rows, nextId := [], 0; }

    method ActiveStats() returns (count: nat, totalBytes: nat)
      ensures count == |rows| && totalBytes == TotalBytes(rows)
    {
      count, totalBytes := |rows|, 0;
      for i := 0 to |rows|
        invariant totalBytes == TotalBytes(rows[..i])
      {
        assert rows[..i + 1][..i] == rows[..i];
        totalBytes := totalBytes + rows[i].totalSize;
      }
      assert rows[..|rows|] == rows;
    }

    method Initiate(request: Request, open: set<string>) returns (id: Option<nat>)
      modifies this
      ensures id == if Accepted(open, request) then Some(old(nextId)) else None
      ensures rows == if id.Some? then old(rows) + [Session(id.value, request.totalSize)] else old(rows)
      ensures nextId == if id.Some? then old(nextId) + 1 else old(nextId)
    {
      if Accepted(open, request) {
        id := Some(nextId);
        rows, nextId := rows + [Session(nextId, request.totalSize)], nextId + 1;
      } else {
        id := None;
      }
    }
  }

  // ------------------------------------------------------------------ purging one at a time

  lemma {:induction false} WithoutTwice(s: seq<TicketId>, a: set<TicketId>, b: set<TicketId>)
    ensures Without(Without(s, a), b) == Without(s, a + b)
  {
    if s != [] {
      WithoutTwice(s[1..], a, b);
      var r := Without(s[1..], a);
      assert ([s[0]] + r)[1..] == r;
      assert s[0] in a ==> Without(s, a) == r;
    }
  }

  lemma PurgeUsersTwice(q: Queue, a: set<TicketId>, b: set<TicketId>)
    ensures RemoveAll(RemoveAll(q, a), b).users == RemoveAll(q, a + b).users
  {
    forall u | u in q.users
      ensures q.users[u] - a - b == q.users[u] - (a + b)
      ensures q.users[u] - a == {} ==> q.users[u] - (a + b) == {}
    {}
  }

  lemma PurgeTwice(q: Queue, a: set<TicketId>, b: set<TicketId>)
    ensures RemoveAll(RemoveAll(q, a), b) == RemoveAll(q, a + b)
  {
    WithoutTwice(q.waiting, a, b);
    PurgeUsersTwice(q, a, b);
    assert q.tickets - a - b == q.tickets - (a + b);
  }

  lemma PurgeNone(q: Queue)
    requires UsersOk(q)
    ensures RemoveAll(q, {}) == q
  {
    WithoutAbsent(q.waiting, {});
    assert RemoveAll(q, {}).users == q.users by {
      assert forall u | u in q.users :: q.users[u] - {} == q.users[u];
    }
  }

  class UploadQueueService {
    const limits: Limits
    const table: SessionTable
    var ticketMap: map<TicketId, Ticket>
    var waitingOrder: seq<TicketId>
    var userTickets: map<string, set<TicketId>>
    var issued: nat

    ghost function State(): Queue
      reads this, table
    {
      Queue(ticketMap, waitingOrder, userTickets, table.rows, issued, table.nextId)
    }

    ghost predicate Valid()
      reads this, table
    {
      Inv(limits, State())
    }

    constructor (limits: Limits, table: SessionTable)
      requires table.rows == [] && table.nextId == 0
      ensures Valid() && this.limits == limits && this.table == table && State() == EMPTY
    {
      this.limits, this.table := limits, table;
      ticketMap, waitingOrder, userTickets, issued := map[], [], map[], 0;
      new;
      StartsSafe(limits);
    }

    method GetUserActiveTicketCount(u: string) returns (count: nat)
      ensures count == |CountedIds(State(), u)|
    {
      if u !in userTickets { return 0; }
      count := 0;
      var todo := userTickets[u];
      ghost var counted := {};
      while todo != {}
        invariant todo <= userTickets[u] && counted !! todo
        invariant counted + (CountedIds(State(), u) * todo) == CountedIds(State(), u)
        invariant count == |counted| && counted <= CountedIds(State(), u)
        decreases todo
      {
        var id :| id in todo;
        todo := todo - {id};
        if id in ticketMap && ticketMap[id].status in {WAITING, READY, ACTIVE} {
          count := count + 1;
          counted := counted + {id};
        }
      }
      assert counted == CountedIds(State(), u);
    }

    method CheckCapacity(more: nat) returns (ok: bool)
      ensures ok == HasCapacity(limits, State(), more)
    {
      var count, totalBytes := table.ActiveStats();
      ok := count < limits.maxSessions && totalBytes + more <= limits.maxBytes;
    }

    method CreateSessionImmediately(request: Request, u: string, open: set<string>) returns (reply: Reply)
      modifies this, table
      ensures State() == if Accepted(open, request) then Admit(old(State()), request, u) else old(State())
      ensures reply == if Accepted(open, request) then Active(old(table.nextId)) else Failed
    {
      var id := table.Initiate(request, open);
      if id.None? { return Failed; }
      userTickets := Track(userTickets, u, Direct(id.value));
      reply := Active(id.value);
    }

    method EnqueueRequest(request: Request, u: string, now: int) returns (reply: Reply)
      requires Valid()
      modifies this
      ensures State() == if |old(waitingOrder)| >= limits.maxQueue then old(State()) else Enqueue(limits, old(State()), request, u, now)
      ensures reply == if |old(waitingOrder)| >= limits.maxQueue then Failed else Waiting(Queued(old(issued)), |old(waitingOrder)| + 1)
    {
      if |waitingOrder| >= limits.maxQueue { return Failed; }
      var id := Queued(issued);
      issued := issued + 1;
      ticketMap := ticketMap[id := Ticket(u, WAITING, request, None, None, now + limits.ttl)];
      waitingOrder := waitingOrder + [id];
      userTickets := Track(userTickets, u, id);
      reply := Waiting(id, |waitingOrder|);
    }

    method TryInitiateOrEnqueue(request: Request, u: string, now: int, open: set<string>) returns (reply: Reply)
      requires Valid()
      modifies this, table
      ensures Valid()
      ensures State() == Step(limits, old(State()), InitiateOrEnqueue(request, u), now, open)
      ensures reply.Failed? <==> State() == old(State())
      ensures reply.Active? ==> |table.rows| == |old(table.rows)| + 1 && table.rows[|table.rows| - 1].id == reply.session
      ensures reply.Waiting? ==> reply.position == Position(waitingOrder, reply.ticket) == |waitingOrder|
      ensures reply.Waiting? ==> reply.ticket in ticketMap && ticketMap[reply.ticket].user == u
                                 && ticketMap[reply.ticket].request == request && ticketMap[reply.ticket].expiresAt == now + limits.ttl
    {
      StepKeeps(limits, State(), InitiateOrEnqueue(request, u), now, open);
      if request.totalSize > limits.maxFile { return Failed; }
      var active := GetUserActiveTicketCount(u);
      var canAdmit := CheckCapacity(request.totalSize);
      if active < limits.perUser && canAdmit {
        reply := CreateSessionImmediately(request, u, open);
      } else {
        ghost var before := waitingOrder;
        reply := EnqueueRequest(request, u, now);
        assert reply.Waiting? ==> waitingOrder[|before|] == reply.ticket;
        assert reply.Waiting? ==> Distinct(waitingOrder);
      }
    }

    method Promote(id: TicketId, now: int, open: set<string>) returns (promoted: bool)
      requires Valid()
      modifies this, table
      ensures Valid()
      ensures promoted == Promotable(limits, old(State()), id, open)
      ensures State() == TryPromote(limits, old(State()), id, now, open)
      ensures promoted ==> id in ticketMap && ticketMap[id].status == READY && ticketMap[id].session == Some(old(table.nextId)) && ticketMap[id].readyAt == Some(now)
      ensures promoted ==> table.rows == old(table.rows) + [Session(ticketMap[id].session.value, ticketMap[id].request.totalSize)]
    {
      TryPromoteKeeps(limits, State(), id, now, open);
      if id !in ticketMap || ticketMap[id].status != WAITING { return false; }
      var ticket := ticketMap[id];
      var active := GetUserActiveTicketCount(ticket.user);
      if active >= limits.perUser { return false; }
      var canAdmit := CheckCapacity(ticket.request.totalSize);
      if !canAdmit { return false; }
      var session := table.Initiate(ticket.request, open);
      if session.None? { return false; }
      ticketMap := ticketMap[id := ticket.(status := READY, session := session, readyAt := Some(now))];
      var p := Position(waitingOrder, id);
      if p > 0 { waitingOrder := waitingOrder[..p - 1] + waitingOrder[p..]; }
      promoted := true;
    }

    method Remove(id: TicketId)
      requires Valid()
      modifies this
      ensures Valid()
      ensures State() == RemoveTicket(old(State()), id)
    {
      ghost var before := State();
      if id in ticketMap {
        RemoveKeeps(limits, before, id);
        userTickets := Untrack(userTickets, ticketMap[id].user, id);
      }
      var p := Position(waitingOrder, id);
      if p > 0 { waitingOrder := waitingOrder[..p - 1] + waitingOrder[p..]; }
      ticketMap := ticketMap - {id};
      if id !in before.tickets { assert ticketMap == before.tickets; assert State() == before; }
    }

    /** The branches for CANCELLED, EXPIRED and ACTIVE tickets are left out: by the invariant
        no such ticket is ever in the map. */
    method GetQueueStatus(id: TicketId, now: int, open: set<string>) returns (reply: Reply)
      requires Valid()
      modifies this, table
      ensures Valid()
      ensures State() == Step(limits, old(State()), UploadQueue.GetQueueStatus(id), now, open)
      ensures reply.Waiting? <==> id in ticketMap && ticketMap[id].status == WAITING
      ensures reply.Waiting? ==> reply.position == Position(waitingOrder, id) > 0
      ensures reply.ReadyReply? <==> id in ticketMap && ticketMap[id].status == READY
      ensures reply.ReadyReply? ==> ticketMap[id].session == Some(reply.session) && now <= reply.claimDeadline
                                    && ticketMap[id].readyAt == Some(reply.claimDeadline - limits.claim)
      ensures reply.Gone? ==> reply.status == EXPIRED && id !in ticketMap
      ensures !reply.Active? && !reply.Failed?
    {
      StepKeeps(limits, State(), UploadQueue.GetQueueStatus(id), now, open);
      if id !in ticketMap { return Gone(EXPIRED); }
      assert TicketOk(State(), id);
      var ticket := ticketMap[id];
      if now > ticket.expiresAt {
        Remove(id);
        return Gone(EXPIRED);
      }
      if ticket.status == WAITING {
        var promoted := Promote(id, now, open);
        if promoted {
          return ReadyReply(ticketMap[id].session.value, ticketMap[id].readyAt.value + limits.claim);
        }
        return Waiting(id, Position(waitingOrder, id));
      }
      if ClaimLost(limits, ticket, now) {
        Remove(id);
        return Gone(EXPIRED);
      }
      reply := ReadyReply(ticket.session.value, ticket.readyAt.value + limits.claim);
    }

    method CancelQueue(id: TicketId) returns (success: bool)
      requires Valid()
      modifies this
      ensures Valid()
      ensures success == (id in old(ticketMap))
      ensures State() == Cancel(old(State()), id)
      ensures id !in ticketMap && id !in waitingOrder && forall u | u in userTickets && id.Queued? :: id !in userTickets[u]
    {
      ghost var before := State();
      success := id in ticketMap;
      if success {
        assert TicketOk(before, id);
        Remove(id);
      }
      assert id.Queued? ==> forall u :: Indexed(State(), u, id);
      forall u | u in userTickets && id.Queued? ensures id !in userTickets[u] { assert Indexed(State(), u, id); }
    }

    method PromoteNextRound(now: int, open: set<string>)
      requires Valid()
      modifies this, table
      ensures Valid()
      ensures State() == PromoteNext(limits, old(State()), now, open)
    {
      PromoteFromKeeps(limits, State(), 0, now, open);
      var i := 0;
      while i < |waitingOrder|
        invariant Valid()
        invariant PromoteFrom(limits, State(), i, now, open) == PromoteNext(limits, old(State()), now, open)
        decreases |waitingOrder| - i
      {
        var id := waitingOrder[0];
        var canAdmit := CheckCapacity(if id in ticketMap then ticketMap[id].request.totalSize else 0);
        if !canAdmit { return; }
        var _ := Promote(id, now, open);
        i := i + 1;
      }
    }

    /** One pass over the ticket map that removes the tickets in `dead`. */
    method Purge(dead: set<TicketId>)
      requires Valid() && dead <= ticketMap.Keys
      modifies this
      ensures Valid()
      ensures State() == RemoveAll(old(State()), dead)
    {
      ghost var start := State();
      PurgeNone(start);
      var todo := ticketMap.Keys;
      assert dead - todo == {};
      while todo != {}
        invariant Valid() && todo <= start.tickets.Keys
        invariant State() == RemoveAll(start, dead - todo)
        decreases todo
      {
        var id :| id in todo;
        if id in dead {
          assert id in ticketMap;
          RemoveIsPurge(limits, State(), id);
          PurgeTwice(start, dead - todo, {id});
          assert (dead - todo) + {id} == dead - (todo - {id});
          Remove(id);
        } else {
          assert dead - todo == dead - (todo - {id});
        }
        todo := todo - {id};
      }
      assert dead - todo == dead;
    }

    method HandleQueueMaintenance(now: int, open: set<string>)
      requires Valid()
      modifies this, table
      ensures Valid()
      ensures State() == Step(limits, old(State()), QueueMaintenance, now, open)
    {
      Purge(set id | id in ticketMap && ClaimLost(limits, ticketMap[id], now));
      Purge(set id | id in ticketMap && Outdated(ticketMap[id], now));
      if |waitingOrder| > 0 { PromoteNextRound(now, open); }
    }
  }
}
