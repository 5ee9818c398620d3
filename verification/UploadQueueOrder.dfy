/** The order of the admission queue: positions never grow, and what one promotion round
    promotes exactly. */
module UploadQueueOrder {
  import opened Wrappers
  import opened UploadQueue
  import opened UploadQueueSafety

  // ------------------------------------------------------------------ positions

  predicate NoLater(q: Queue, q': Queue, id: TicketId) {
    id in q'.waiting ==> id in q.waiting && Position(q'.waiting, id) <= Position(q.waiting, id)
  }

  /** Every ticket issued by q stands in q' no further back than in q, and one that has left
      the line of q is not in the line of q'. */
  ghost predicate Onward(q: Queue, q': Queue) {
    && q.nextTicket <= q'.nextTicket
    && forall n: nat {:trigger NoLater(q, q', Queued(n))} :: n < q.nextTicket ==> NoLater(q, q', Queued(n))
  }

  lemma OnwardTrans(a: Queue, b: Queue, c: Queue)
    requires Onward(a, b) && Onward(b, c)
    ensures Onward(a, c)
  {
    forall n: nat | n < a.nextTicket ensures NoLater(a, c, Queued(n)) {
      assert NoLater(a, b, Queued(n)) && NoLater(b, c, Queued(n));
    }
  }

  lemma PositionCons(x: TicketId, s: seq<TicketId>, id: TicketId)
    ensures Position([x] + s, id) == if x == id then 1 else if Position(s, id) == 0 then 0 else Position(s, id) + 1
  {
    assert ([x] + s)[1..] == s;
  }

  lemma PositionHead(s: seq<TicketId>, id: TicketId)
    requires s != []
    ensures Position(s, id) ==
            if s[0] == id then 1 else if Position(s[1..], id) == 0 then 0 else Position(s[1..], id) + 1
  {}

  lemma WithoutHead(s: seq<TicketId>, dead: set<TicketId>)
    requires s != []
    ensures Without(s, dead) == (if s[0] in dead then [] else [s[0]]) + Without(s[1..], dead)
  {}

  lemma {:induction false} PositionWithout(s: seq<TicketId>, dead: set<TicketId>, id: TicketId)
    requires id !in dead
    ensures Position(Without(s, dead), id) <= Position(s, id)
  {
    if s != [] {
      PositionWithout(s[1..], dead, id);
      WithoutHas(s[1..], dead, id);
      PositionHead(s, id);
      WithoutHead(s, dead);
      if s[0] in dead {
        assert Without(s, dead) == Without(s[1..], dead);
      } else {
        PositionCons(s[0], Without(s[1..], dead), id);
      }
    }
  }

  lemma WithoutHas(s: seq<TicketId>, dead: set<TicketId>, id: TicketId)
    requires id !in dead
    ensures Position(Without(s, dead), id) == 0 <==> Position(s, id) == 0
  {}

  lemma {:induction false} PositionAppend(s: seq<TicketId>, x: TicketId, id: TicketId)
    requires id in s
    ensures Position(s + [x], id) == Position(s, id)
  {
    assert (s + [x])[1..] == s[1..] + [x];
    if s[0] != id { PositionAppend(s[1..], x, id); }
  }

  lemma RemoveAllOnward(q: Queue, dead: set<TicketId>)
    ensures Onward(q, RemoveAll(q, dead))
  {
    forall n: nat ensures NoLater(q, RemoveAll(q, dead), Queued(n)) {
      if Queued(n) !in dead { PositionWithout(q.waiting, dead, Queued(n)); }
    }
  }

  lemma RemoveOnward(c: Limits, q: Queue, id: TicketId)
    requires Inv(c, q) && id in q.tickets
    ensures Onward(q, RemoveTicket(q, id))
  {
    RemoveIsPurge(c, q, id);
    RemoveAllOnward(q, {id});
  }

  lemma TryPromoteOnward(c: Limits, q: Queue, id: TicketId, now: int, open: set<string>)
    requires Inv(c, q)
    ensures Onward(q, TryPromote(c, q, id, now, open))
  {
    RemoveFirstIsWithout(q.waiting, id);
    forall n: nat ensures NoLater(q, TryPromote(c, q, id, now, open), Queued(n)) {
      if Queued(n) != id { PositionWithout(q.waiting, {id}, Queued(n)); }
    }
  }

  lemma {:induction false} PromoteFromOnward(c: Limits, q: Queue, i: nat, now: int, open: set<string>)
    requires Inv(c, q)
    ensures Onward(q, PromoteFrom(c, q, i, now, open))
    decreases |q.waiting| - i
  {
    if i < |q.waiting| && HasCapacity(c, q, HeadSize(q)) {
      var q1 := TryPromote(c, q, q.waiting[0], now, open);
      TryPromoteOnward(c, q, q.waiting[0], now, open);
      TryPromoteKeeps(c, q, q.waiting[0], now, open);
      PromoteFromOnward(c, q1, i + 1, now, open);
      OnwardTrans(q, q1, PromoteFrom(c, q1, i + 1, now, open));
    }
  }

  lemma EnqueueOnward(c: Limits, q: Queue, request: Request, u: string, now: int)
    requires Inv(c, q)
    ensures Onward(q, Enqueue(c, q, request, u, now))
  {
    var q' := Enqueue(c, q, request, u, now);
    forall n: nat | n < q.nextTicket ensures NoLater(q, q', Queued(n)) {
      if Queued(n) in q.waiting { PositionAppend(q.waiting, Queued(q.nextTicket), Queued(n)); }
    }
  }

  lemma Purged(c: Limits, q: Queue, now: int) returns (q1: Queue, q2: Queue)
    requires Inv(c, q)
    ensures q1 == RemoveAll(q, set id | id in q.tickets && ClaimLost(c, q.tickets[id], now))
    ensures q2 == RemoveAll(q1, set id | id in q1.tickets && Outdated(q1.tickets[id], now))
    ensures Inv(c, q1) && Inv(c, q2)
    ensures Onward(q, q2)
  {
    var d1 := set id | id in q.tickets && ClaimLost(c, q.tickets[id], now);
    forall id | id in d1 ensures id.Queued? { assert TicketOk(q, id); }
    RemoveAllKeeps(c, q, d1);
    RemoveAllOnward(q, d1);
    q1 := RemoveAll(q, d1);
    var d2 := set id | id in q1.tickets && Outdated(q1.tickets[id], now);
    forall id | id in d2 ensures id.Queued? { assert TicketOk(q1, id); }
    RemoveAllKeeps(c, q1, d2);
    RemoveAllOnward(q1, d2);
    q2 := RemoveAll(q1, d2);
    OnwardTrans(q, q1, q2);
  }

  lemma StepOnward(c: Limits, q: Queue, call: Call, now: int, open: set<string>)
    requires Inv(c, q)
    ensures Onward(q, Step(c, q, call, now, open))
  {
    match call
    case InitiateOrEnqueue(request, u) => EnqueueOnward(c, q, request, u, now);
    case GetQueueStatus(id) =>
      if id in q.tickets { RemoveOnward(c, q, id); }
      TryPromoteOnward(c, q, id, now, open);
    case CancelQueue(id) =>
      if id in q.tickets { RemoveOnward(c, q, id); }
    case PromoteNextCall => PromoteFromOnward(c, q, 0, now, open);
    case QueueMaintenance =>
      var q1, q2 := Purged(c, q, now);
      PromoteFromOnward(c, q2, 0, now, open);
      OnwardTrans(q, q2, PromoteNext(c, q2, now, open));
    case SessionEnds(session) =>
  }

  /** Main result: over every run a waiting ticket's position never increases, and a ticket
      that has left the line never stands in it again. */
  lemma {:induction false} RunsGoOnward(c: Limits, q: Queue, events: seq<Event>)
    requires Inv(c, q)
    ensures Onward(q, Run(c, q, events))
    decreases |events|
  {
    if events != [] {
      var e := events[0];
      var q1 := Step(c, q, e.call, e.now, e.open);
      StepKeeps(c, q, e.call, e.now, e.open);
      StepOnward(c, q, e.call, e.now, e.open);
      RunsGoOnward(c, q1, events[1..]);
      OnwardTrans(q, q1, Run(c, q1, events[1..]));
    }
  }

  // ------------------------------------------------------------------ one promotion round

  function SizeOf(q: Queue, id: TicketId): nat {
    if id in q.tickets then q.tickets[id].request.totalSize else 0
  }

  /** Bytes asked for by the first k in line. */
  function LineBytes(q: Queue, k: nat): nat
    requires k <= |q.waiting|
  {
    if k == 0 then 0 else LineBytes(q, k - 1) + SizeOf(q, q.waiting[k - 1])
  }

  /** Whether the ticket in place j can be promoted after all those before it; told from the
      state at the beginning of the round. */
  predicate Fits(c: Limits, q: Queue, j: nat, open: set<string>)
    requires j < |q.waiting|
  {
    var id := q.waiting[j];
    && id in q.tickets
    && |CountedIds(q, q.tickets[id].user)| < c.perUser
    && Accepted(open, q.tickets[id].request)
    && |q.sessions| + j < c.maxSessions
    && TotalBytes(q.sessions) + LineBytes(q, j + 1) <= c.maxBytes
  }

  /** The first k in line promoted one after the other. */
  function Promoted(q: Queue, k: nat, now: int): (r: Queue)
    requires k <= |q.waiting|
    requires forall id | id in q.waiting :: id in q.tickets
    ensures r.tickets.Keys == q.tickets.Keys
  {
    if k == 0 then q else MakeReady(Promoted(q, k - 1, now), q.waiting[k - 1], now)
  }

  predicate ReadyOrSame(q: Queue, q': Queue, k: nat, id: TicketId)
    requires k <= |q.waiting|
  {
    && id in q.tickets && id in q'.tickets
    && if id in q.waiting[..k] then q'.tickets[id].status == READY else q'.tickets[id] == q.tickets[id]
  }

  /** What is known after promoting the first k. */
  ghost predicate PromotedFacts(c: Limits, q: Queue, q': Queue, k: nat)
    requires k <= |q.waiting|
  {
    && Inv(c, q') && q'.waiting == q.waiting[k..]
    && |q'.sessions| == |q.sessions| + k && TotalBytes(q'.sessions) == TotalBytes(q.sessions) + LineBytes(q, k)
    && (forall u :: OwnIds(q', u) == OwnIds(q, u))
    && (forall id {:trigger ReadyOrSame(q, q', k, id)} | id in q.tickets :: ReadyOrSame(q, q', k, id))
  }

  /** In the state after k promotions, the head can be promoted exactly when place k fits. */
  lemma HeadFits(c: Limits, q: Queue, q': Queue, k: nat, open: set<string>)
    requires Inv(c, q) && k < |q.waiting| && PromotedFacts(c, q, q', k)
    ensures q'.waiting[0] == q.waiting[k] && HeadSize(q') == SizeOf(q, q.waiting[k])
    ensures Promotable(c, q', q.waiting[k], open) <==> Fits(c, q, k, open)
  {
    var id := q.waiting[k];
    assert id !in q.waiting[..k];
    assert ReadyOrSame(q, q', k, id);
    var u := q.tickets[id].user;
    CountIsOwn(q, u);
    CountIsOwn(q', u);
    assert OwnIds(q', u) == OwnIds(q, u);
  }

  lemma PromoteOneMore(c: Limits, q: Queue, k: nat, now: int, open: set<string>)
    requires Inv(c, q) && k < |q.waiting| && Fits(c, q, k, open)
    requires PromotedFacts(c, q, Promoted(q, k, now), k)
    ensures PromotedFacts(c, q, Promoted(q, k + 1, now), k + 1)
  {
    var a, id := Promoted(q, k, now), q.waiting[k];
    HeadFits(c, q, a, k, open);
    assert ReadyOrSame(q, a, k, id);
    MakeReadyKeeps(c, a, id, now, open);
    OneMore(c, q, a, k, now, MakeReady(a, id, now));
  }

  lemma OneMore(c: Limits, q: Queue, a: Queue, k: nat, now: int, b: Queue)
    requires Inv(c, q) && k < |q.waiting| && PromotedFacts(c, q, a, k)
    requires q.waiting[k] in a.tickets && a.tickets[q.waiting[k]] == q.tickets[q.waiting[k]]
    requires b == MakeReady(a, q.waiting[k], now) && Inv(c, b)
    requires forall u :: OwnIds(b, u) == OwnIds(a, u)
    ensures PromotedFacts(c, q, b, k + 1)
  {
    var id := q.waiting[k];
    TotalAppend(a.sessions, Session(a.nextSession, SizeOf(q, id)));
    assert q.waiting[..k + 1] == q.waiting[..k] + [id];
    HeadGone(q.waiting, k);
    forall x | x in q.tickets ensures ReadyOrSame(q, b, k + 1, x) { assert ReadyOrSame(q, a, k, x); }
    forall u ensures OwnIds(b, u) == OwnIds(q, u) { assert OwnIds(a, u) == OwnIds(q, u); }
  }

  lemma HeadGone(s: seq<TicketId>, k: nat)
    requires k < |s|
    ensures RemoveFirst(s[k..], s[k]) == s[k + 1..]
  {
    var t := s[k..];
    assert Position(t, s[k]) == 1;
    assert t[..0] + t[1..] == s[k + 1..];
  }

  /** A head that cannot be promoted ends the round: the remaining iterations try it again. */
  lemma {:induction false} HeadBlocks(c: Limits, q: Queue, i: nat, now: int, open: set<string>)
    requires q.waiting != [] ==> !Promotable(c, q, q.waiting[0], open)
    ensures PromoteFrom(c, q, i, now, open) == q
    decreases |q.waiting| - i
  {
    if i < |q.waiting| { HeadBlocks(c, q, i + 1, now, open); }
  }

  lemma RoundStep(c: Limits, q: Queue, i: nat, now: int, open: set<string>)
    requires Inv(c, q) && i < |q.waiting| - i
    requires PromotedFacts(c, q, Promoted(q, i, now), i)
    ensures var cur := Promoted(q, i, now);
            if Fits(c, q, i, open) then
              PromotedFacts(c, q, Promoted(q, i + 1, now), i + 1)
              && PromoteFrom(c, cur, i, now, open) == PromoteFrom(c, Promoted(q, i + 1, now), i + 1, now, open)
            else PromoteFrom(c, cur, i, now, open) == cur
  {
    var cur := Promoted(q, i, now);
    HeadFits(c, q, cur, i, open);
    if Fits(c, q, i, open) {
      PromoteOneMore(c, q, i, now, open);
      RoundGoesOn(c, cur, i, now, open);
    } else {
      HeadBlocks(c, cur, i, now, open);
    }
  }

  lemma RoundGoesOn(c: Limits, q: Queue, i: nat, now: int, open: set<string>)
    requires i < |q.waiting| && Promotable(c, q, q.waiting[0], open)
    ensures PromoteFrom(c, q, i, now, open) == PromoteFrom(c, MakeReady(q, q.waiting[0], now), i + 1, now, open)
  {}

  lemma RoundEnds(c: Limits, q: Queue, i: nat, now: int, open: set<string>)
    requires Inv(c, q) && |q.waiting| - i <= i <= |q.waiting|
    requires PromotedFacts(c, q, Promoted(q, i, now), i)
    ensures PromoteFrom(c, Promoted(q, i, now), i, now, open) == Promoted(q, i, now)
  {}

  /** r is the state after promoting the first k, the longest prefix that fits, up to half
      of the line. */
  ghost predicate RoundResult(c: Limits, q: Queue, now: int, open: set<string>, k: nat, r: Queue) {
    && k <= (|q.waiting| + 1) / 2
    && (forall j | 0 <= j < k :: Fits(c, q, j, open))
    && (k < (|q.waiting| + 1) / 2 ==> !Fits(c, q, k, open))
    && (forall id | id in q.waiting :: id in q.tickets)
    && r == Promoted(q, k, now)
    && PromotedFacts(c, q, r, k)
  }

  /** The loop has promoted the first i, all of which fit. */
  ghost predicate RoundSoFar(c: Limits, q: Queue, now: int, open: set<string>, i: nat) {
    && Inv(c, q) && i <= (|q.waiting| + 1) / 2
    && (forall j | 0 <= j < i :: Fits(c, q, j, open))
    && PromotedFacts(c, q, Promoted(q, i, now), i)
  }

  predicate RoundOver(c: Limits, q: Queue, open: set<string>, i: nat) {
    |q.waiting| - i <= i || !Fits(c, q, i, open)
  }

  lemma RoundStops(c: Limits, q: Queue, i: nat, now: int, open: set<string>)
    requires RoundSoFar(c, q, now, open, i) && RoundOver(c, q, open, i)
    ensures RoundResult(c, q, now, open, i, PromoteFrom(c, Promoted(q, i, now), i, now, open))
  {
    if |q.waiting| - i <= i { RoundEnds(c, q, i, now, open); } else { RoundStep(c, q, i, now, open); }
  }

  lemma RoundContinues(c: Limits, q: Queue, i: nat, now: int, open: set<string>)
    requires RoundSoFar(c, q, now, open, i) && !RoundOver(c, q, open, i)
    ensures RoundSoFar(c, q, now, open, i + 1)
    ensures PromoteFrom(c, Promoted(q, i, now), i, now, open) == PromoteFrom(c, Promoted(q, i + 1, now), i + 1, now, open)
  {
    RoundStep(c, q, i, now, open);
    forall j | 0 <= j < i + 1 ensures Fits(c, q, j, open) { assert j < i || j == i; }
  }

  lemma {:induction false} PromoteFromExact(c: Limits, q: Queue, i: nat, now: int, open: set<string>, r: Queue) returns (k: nat)
    requires RoundSoFar(c, q, now, open, i)
    requires r == PromoteFrom(c, Promoted(q, i, now), i, now, open)
    ensures RoundResult(c, q, now, open, k, r)
    decreases |q.waiting| - i
  {
    hide RoundSoFar, RoundOver, RoundResult, PromoteFrom, Promoted;
    if RoundOver(c, q, open, i) {
      RoundStops(c, q, i, now, open);
      k := i;
    } else {
      RoundContinues(c, q, i, now, open);
      k := PromoteFromExact(c, q, i + 1, now, open, r);
    }
  }

  /** Main result: of n waiting tickets one round promotes the longest prefix that fits, and
      at most ceil(n/2) of them; so exactly ceil(n/2) when each of these fits. Everything
      else keeps its record and its order. */
  lemma PromoteExact(c: Limits, q: Queue, now: int, open: set<string>) returns (k: nat)
    requires Inv(c, q)
    ensures k <= (|q.waiting| + 1) / 2
    ensures forall j | 0 <= j < k :: Fits(c, q, j, open)
    ensures k < (|q.waiting| + 1) / 2 ==> !Fits(c, q, k, open)
    ensures PromoteNext(c, q, now, open) == Promoted(q, k, now)
    ensures PromotedFacts(c, q, PromoteNext(c, q, now, open), k)
  {
    assert q.waiting[0..] == q.waiting;
    forall id | id in q.tickets ensures ReadyOrSame(q, q, 0, id) {}
    k := PromoteFromExact(c, q, 0, now, open, PromoteNext(c, q, now, open));
  }
}
