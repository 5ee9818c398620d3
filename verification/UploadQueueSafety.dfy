/** What every run of the admission queue keeps: its three indexes agree, the limits hold,
    and a waiting ticket only ever moves forward. */
module UploadQueueSafety {
  import opened Wrappers
  import opened UploadQueue

  // ------------------------------------------------------------------ the invariant

  /** The line holds exactly the WAITING tickets, each once, and is not over-long. */
  ghost predicate LineOk(c: Limits, q: Queue) {
    && Distinct(q.waiting)
    && (forall id :: id in q.waiting <==> id in q.tickets && q.tickets[id].status == WAITING)
    && |q.waiting| <= c.maxQueue
  }

  predicate TicketOk(q: Queue, id: TicketId)
    requires id in q.tickets
  {
    && id.Queued? && id.n < q.nextTicket
    && q.tickets[id].status in {WAITING, READY}
    && (q.tickets[id].status == READY <==> q.tickets[id].readyAt.Some?)
    && (q.tickets[id].status == READY <==> q.tickets[id].session.Some?)
  }

  ghost predicate TicketsOk(q: Queue) {
    forall id {:trigger TicketOk(q, id)} | id in q.tickets :: TicketOk(q, id)
  }

  /** For ids of the line, the per-user index is exact. */
  predicate Indexed(q: Queue, u: string, id: TicketId) {
    Tracked(q.users, u, id) <==> id in q.tickets && q.tickets[id].user == u
  }

  ghost predicate UsersOk(q: Queue) {
    && (forall u: string, id: TicketId {:trigger Indexed(q, u, id)} :: id.Queued? ==> Indexed(q, u, id))
    && (forall u | u in q.users :: q.users[u] != {})
  }

  predicate CapsOk(c: Limits, q: Queue) {
    |q.sessions| <= c.maxSessions && TotalBytes(q.sessions) <= c.maxBytes
  }

  function OwnIds(q: Queue, u: string): set<TicketId> {
    set id | id in q.tickets && q.tickets[id].user == u
  }

  function ReadyIds(q: Queue, u: string): set<TicketId> {
    set id | id in q.tickets && q.tickets[id].user == u && q.tickets[id].status == READY
  }

  /** A user's READY tickets stay strictly below the per-user limit. */
  predicate ReadyBelow(c: Limits, q: Queue, u: string) {
    ReadyIds(q, u) == {} || |ReadyIds(q, u)| < c.perUser
  }

  ghost predicate ReadyOk(c: Limits, q: Queue) {
    forall u {:trigger ReadyBelow(c, q, u)} :: ReadyBelow(c, q, u)
  }

  ghost predicate Inv(c: Limits, q: Queue) {
    LineOk(c, q) && TicketsOk(q) && UsersOk(q) && CapsOk(c, q) && ReadyOk(c, q)
  }

  // ------------------------------------------------------------------ lists

  lemma RemovedAt(s: seq<TicketId>, id: TicketId)
    requires Distinct(s)
    ensures Distinct(RemoveFirst(s, id))
    ensures forall x :: x in RemoveFirst(s, id) <==> x in s && x != id
    ensures |RemoveFirst(s, id)| <= |s|
  {
    var p := Position(s, id);
    var r := RemoveFirst(s, id);
    if p > 0 {
      forall x ensures x in r <==> x in s && x != id {
        if x in s && x != id {
          var k := Position(s, x) - 1;
          assert s[k] == x;
          if k < p - 1 { assert r[k] == x; } else { assert k >= p; assert r[k - 1] == x; }
        }
      }
    }
  }

  lemma {:induction false} WithoutDistinct(s: seq<TicketId>, dead: set<TicketId>)
    requires Distinct(s)
    ensures Distinct(Without(s, dead))
  {
    if s != [] {
      WithoutDistinct(s[1..], dead);
      var r := Without(s[1..], dead);
      assert forall x :: x in r ==> x in s[1..];
      assert s[0] !in s[1..];
    }
  }

  lemma SmallerSet(a: set<TicketId>, b: set<TicketId>)
    requires a <= b
    ensures |a| <= |b|
    ensures a != b ==> |a| < |b|
  {
    assert b == a + (b - a);
    assert a != b ==> b - a != {};
  }

  lemma TotalAppend(sessions: seq<Session>, x: Session)
    ensures TotalBytes(sessions + [x]) == TotalBytes(sessions) + x.totalSize
  {
    assert (sessions + [x])[..|sessions|] == sessions;
  }

  // ------------------------------------------------------------------ each operation keeps it

  /** The count that guards admission is the number of a user's tickets in the map; the
      tracked `direct-` ids never add to it. */
  lemma CountIsOwn(q: Queue, u: string)
    requires TicketsOk(q) && UsersOk(q)
    ensures CountedIds(q, u) == OwnIds(q, u)
  {
    forall id ensures id in CountedIds(q, u) <==> id in OwnIds(q, u) {
      if id in q.tickets { assert TicketOk(q, id); }
      if id.Queued? { assert Indexed(q, u, id); }
    }
  }

  lemma EnqueueKeeps(c: Limits, q: Queue, request: Request, u: string, now: int)
    requires Inv(c, q) && |q.waiting| < c.maxQueue
    ensures Inv(c, Enqueue(c, q, request, u, now))
  {
    var id, q' := Queued(q.nextTicket), Enqueue(c, q, request, u, now);
    assert id !in q.tickets by { assert id in q.tickets ==> TicketOk(q, id); }
    assert forall x :: x in q'.waiting <==> x in q.waiting || x == id;
    forall x | x in q'.tickets ensures TicketOk(q', x) { if x != id { assert TicketOk(q, x); } }
    forall v: string, x: TicketId | x.Queued? ensures Indexed(q', v, x) { assert Indexed(q, v, x); }
    forall v ensures ReadyBelow(c, q', v) {
      assert ReadyBelow(c, q, v);
      assert ReadyIds(q', v) == ReadyIds(q, v);
    }
  }

  lemma AdmitKeeps(c: Limits, q: Queue, request: Request, u: string)
    requires Inv(c, q) && HasCapacity(c, q, request.totalSize)
    ensures Inv(c, Admit(q, request, u))
  {
    var q' := Admit(q, request, u);
    TotalAppend(q.sessions, Session(q.nextSession, request.totalSize));
    forall x | x in q'.tickets ensures TicketOk(q', x) { assert TicketOk(q, x); }
    forall v: string, x: TicketId | x.Queued? ensures Indexed(q', v, x) { assert Indexed(q, v, x); }
    forall v ensures ReadyBelow(c, q', v) {
      assert ReadyBelow(c, q, v);
      assert ReadyIds(q', v) == ReadyIds(q, v);
    }
  }

  /** Promotion counts the ticket itself against the limit, so it leaves its user with fewer
      READY tickets than the limit. */
  lemma MakeReadyKeeps(c: Limits, q: Queue, id: TicketId, now: int, open: set<string>)
    requires Inv(c, q) && Promotable(c, q, id, open)
    ensures Inv(c, MakeReady(q, id, now))
    ensures forall u :: OwnIds(MakeReady(q, id, now), u) == OwnIds(q, u)
  {
    var t, q' := q.tickets[id], MakeReady(q, id, now);
    TotalAppend(q.sessions, Session(q.nextSession, t.request.totalSize));
    RemovedAt(q.waiting, id);
    forall x | x in q'.tickets ensures TicketOk(q', x) { assert TicketOk(q, x); }
    forall v: string, x: TicketId | x.Queued? ensures Indexed(q', v, x) { assert Indexed(q, v, x); }
    forall u ensures OwnIds(q', u) == OwnIds(q, u) {}
    forall v ensures ReadyBelow(c, q', v) { MakeReadyBelow(c, q, id, now, open, v); }
  }

  lemma MakeReadyBelow(c: Limits, q: Queue, id: TicketId, now: int, open: set<string>, v: string)
    requires Inv(c, q) && Promotable(c, q, id, open)
    ensures ReadyBelow(c, MakeReady(q, id, now), v)
  {
    var q' := MakeReady(q, id, now);
    assert ReadyBelow(c, q, v);
    if v == q.tickets[id].user {
      CountIsOwn(q, v);
      assert ReadyIds(q', v) <= OwnIds(q, v);
      SmallerSet(ReadyIds(q', v), OwnIds(q, v));
    } else {
      assert ReadyIds(q', v) == ReadyIds(q, v);
    }
  }

  lemma TryPromoteKeeps(c: Limits, q: Queue, id: TicketId, now: int, open: set<string>)
    requires Inv(c, q)
    ensures Inv(c, TryPromote(c, q, id, now, open))
  {
    if Promotable(c, q, id, open) { MakeReadyKeeps(c, q, id, now, open); }
  }

  lemma RemoveAllKeeps(c: Limits, q: Queue, dead: set<TicketId>)
    requires Inv(c, q) && forall id | id in dead :: id.Queued?
    ensures Inv(c, RemoveAll(q, dead))
    ensures forall u :: OwnIds(RemoveAll(q, dead), u) == OwnIds(q, u) - dead
  {
    var q' := RemoveAll(q, dead);
    WithoutDistinct(q.waiting, dead);
    forall x | x in q'.tickets ensures TicketOk(q', x) { assert TicketOk(q, x); }
    forall v: string, x: TicketId | x.Queued? ensures Indexed(q', v, x) {
      assert Indexed(q, v, x);
      if v in q.users && x in q.users[v] && x !in dead { assert x in q.users[v] - dead; }
    }
    forall v ensures ReadyBelow(c, q', v) {
      assert ReadyBelow(c, q, v);
      assert ReadyIds(q', v) <= ReadyIds(q, v);
      SmallerSet(ReadyIds(q', v), ReadyIds(q, v));
    }
    forall u ensures OwnIds(q', u) == OwnIds(q, u) - dead {}
  }

  /** Removing one ticket through its own record's user is the same as purging it everywhere:
      no other index can hold it. */
  lemma RemoveIsPurge(c: Limits, q: Queue, id: TicketId)
    requires Inv(c, q) && id in q.tickets
    ensures RemoveTicket(q, id) == RemoveAll(q, {id})
  {
    assert TicketOk(q, id);
    var a, b, u := RemoveTicket(q, id), RemoveAll(q, {id}), q.tickets[id].user;
    forall v ensures v in a.users <==> v in b.users {
      assert Indexed(q, v, id);
      if v in q.users && v != u { assert q.users[v] - {id} == q.users[v]; }
    }
    forall v | v in a.users ensures a.users[v] == b.users[v] {
      assert Indexed(q, v, id);
      if v != u { assert q.users[v] - {id} == q.users[v]; }
    }
    assert a.users == b.users;
    RemoveFirstIsWithout(q.waiting, id);
  }

  lemma {:induction false} WithoutAbsent(s: seq<TicketId>, dead: set<TicketId>)
    requires forall x | x in s :: x !in dead
    ensures Without(s, dead) == s
  {
    if s != [] { WithoutAbsent(s[1..], dead); }
  }

  lemma RemoveBehind(s: seq<TicketId>, id: TicketId)
    requires s != [] && s[0] != id
    ensures RemoveFirst(s, id) == [s[0]] + RemoveFirst(s[1..], id)
  {
    var p, t := Position(s[1..], id), s[1..];
    assert Position(s, id) == if p == 0 then 0 else p + 1;
    if p == 0 {
      assert s == [s[0]] + t;
    } else {
      assert s[..p] == [s[0]] + t[..p - 1];
      assert s[p + 1..] == t[p..];
    }
  }

  lemma {:induction false} RemoveFirstIsWithout(s: seq<TicketId>, id: TicketId)
    requires Distinct(s)
    ensures RemoveFirst(s, id) == Without(s, {id})
  {
    if s != [] {
      if s[0] == id {
        WithoutAbsent(s[1..], {id});
        assert RemoveFirst(s, id) == s[..0] + s[1..];
      } else {
        RemoveBehind(s, id);
        RemoveFirstIsWithout(s[1..], id);
      }
    }
  }

  lemma {:induction false} PromoteFromKeeps(c: Limits, q: Queue, i: nat, now: int, open: set<string>)
    requires Inv(c, q)
    ensures Inv(c, PromoteFrom(c, q, i, now, open))
    decreases |q.waiting| - i
  {
    if i < |q.waiting| && HasCapacity(c, q, HeadSize(q)) {
      TryPromoteKeeps(c, q, q.waiting[0], now, open);
      PromoteFromKeeps(c, TryPromote(c, q, q.waiting[0], now, open), i + 1, now, open);
    }
  }

  lemma MaintainKeeps(c: Limits, q: Queue, now: int, open: set<string>)
    requires Inv(c, q)
    ensures Inv(c, Maintain(c, q, now, open))
  {
    var d1 := set id | id in q.tickets && ClaimLost(c, q.tickets[id], now);
    forall id | id in d1 ensures id.Queued? { assert TicketOk(q, id); }
    RemoveAllKeeps(c, q, d1);
    var q1 := RemoveAll(q, d1);
    var d2 := set id | id in q1.tickets && Outdated(q1.tickets[id], now);
    forall id | id in d2 ensures id.Queued? { assert TicketOk(q1, id); }
    RemoveAllKeeps(c, q1, d2);
    PromoteFromKeeps(c, RemoveAll(q1, d2), 0, now, open);
  }

  lemma RemoveKeeps(c: Limits, q: Queue, id: TicketId)
    requires Inv(c, q) && id in q.tickets
    ensures Inv(c, RemoveTicket(q, id))
  {
    assert TicketOk(q, id);
    RemoveIsPurge(c, q, id);
    RemoveAllKeeps(c, q, {id});
  }

  lemma EndKeeps(c: Limits, q: Queue, session: nat)
    requires Inv(c, q)
    ensures Inv(c, q.(sessions := DropSession(q.sessions, session)))
  {
    var q' := q.(sessions := DropSession(q.sessions, session));
    forall x | x in q'.tickets ensures TicketOk(q', x) { assert TicketOk(q, x); }
    forall v: string, x: TicketId | x.Queued? ensures Indexed(q', v, x) { assert Indexed(q, v, x); }
    forall v ensures ReadyBelow(c, q', v) {
      assert ReadyBelow(c, q, v);
      assert ReadyIds(q', v) == ReadyIds(q, v);
    }
  }

  lemma StepKeeps(c: Limits, q: Queue, call: Call, now: int, open: set<string>)
    requires Inv(c, q)
    ensures Inv(c, Step(c, q, call, now, open))
  {
    match call
    case InitiateOrEnqueue(request, u) =>
      if |q.waiting| < c.maxQueue { EnqueueKeeps(c, q, request, u, now); }
      if HasCapacity(c, q, request.totalSize) { AdmitKeeps(c, q, request, u); }
    case GetQueueStatus(id) =>
      if id in q.tickets { RemoveKeeps(c, q, id); }
      TryPromoteKeeps(c, q, id, now, open);
    case CancelQueue(id) =>
      if id in q.tickets { RemoveKeeps(c, q, id); }
    case PromoteNextCall => PromoteFromKeeps(c, q, 0, now, open);
    case QueueMaintenance => MaintainKeeps(c, q, now, open);
    case SessionEnds(session) => EndKeeps(c, q, session);
  }

  /** Main result: over every run from the empty service the indexes agree and the limits hold. */
  lemma {:induction false} RunsAreSafe(c: Limits, q: Queue, events: seq<Event>)
    requires Inv(c, q)
    ensures Inv(c, Run(c, q, events))
    decreases |events|
  {
    if events != [] {
      var e := events[0];
      StepKeeps(c, q, e.call, e.now, e.open);
      RunsAreSafe(c, Step(c, q, e.call, e.now, e.open), events[1..]);
    }
  }

  lemma StartsSafe(c: Limits)
    ensures Inv(c, EMPTY)
  {
    forall v ensures ReadyBelow(c, EMPTY, v) {}
  }
}
