/** Admission control for multipart uploads: limits on live sessions, and a waiting line.
    Each public call is one atomic step; the session table answers at once. */
module UploadQueue {
  import opened Wrappers

  // ------------------------------------------------------------------ state

  /** Tickets of the line carry fresh ids; a session opened at once is tracked as `direct-`id. */
  datatype TicketId = Queued(n: nat) | Direct(session: nat)

  datatype Status = WAITING | READY | ACTIVE | EXPIRED | CANCELLED

  datatype Request = Request(folder: string, totalSize: nat)

  datatype Ticket = Ticket(user: string, status: Status, request: Request, session: Option<nat>, readyAt: Option<int>, expiresAt: int)

  /** A session row in state INIT or UPLOADING that has not expired. */
  datatype Session = Session(id: nat, totalSize: nat)

  datatype Limits = Limits(maxSessions: nat, perUser: nat, maxBytes: nat, maxFile: nat, ttl: nat, claim: nat, maxQueue: nat)

  datatype Queue = Queue(
    tickets: map<TicketId, Ticket>,
    waiting: seq<TicketId>,
    users: map<string, set<TicketId>>,
    sessions: seq<Session>,
    nextTicket: nat,
    nextSession: nat)

  const MULTIPART_MIN_FILE_SIZE: nat := 100 * 1024 * 1024

  /** What `initiate` accepts; `open` are the folders that are active and not being synced. */
  predicate Accepted(open: set<string>, request: Request) {
    request.totalSize >= MULTIPART_MIN_FILE_SIZE && request.folder in open
  }

  function TotalBytes(sessions: seq<Session>): nat {
    if sessions == [] then 0 else TotalBytes(sessions[..|sessions| - 1]) + sessions[|sessions| - 1].totalSize
  }

  // ------------------------------------------------------------------ list and index operations

  /** `indexOf(id) + 1` */
  function Position(s: seq<TicketId>, id: TicketId): (p: nat)
    ensures p > 0 <==> id in s
    ensures p > 0 ==> p <= |s| && s[p - 1] == id
  {
    if s == [] then 0
    else if s[0] == id then 1
    else
      var p := Position(s[1..], id);
      if p == 0 then 0 else p + 1
  }

  /** `splice(indexOf(id), 1)` when present */
  function RemoveFirst(s: seq<TicketId>, id: TicketId): seq<TicketId> {
    var p := Position(s, id);
    if p == 0 then s else s[..p - 1] + s[p..]
  }

  function Without(s: seq<TicketId>, dead: set<TicketId>): (r: seq<TicketId>)
    ensures forall id :: id in r <==> id in s && id !in dead
    ensures |r| <= |s|
  {
    if s == [] then []
    else (if s[0] in dead then [] else [s[0]]) + Without(s[1..], dead)
  }

  predicate Distinct(s: seq<TicketId>) {
    forall i, j :: 0 <= i < j < |s| ==> s[i] != s[j]
  }

  predicate Tracked(users: map<string, set<TicketId>>, u: string, id: TicketId) {
    u in users && id in users[u]
  }

  function Track(users: map<string, set<TicketId>>, u: string, id: TicketId): map<string, set<TicketId>> {
    users[u := (if u in users then users[u] else {}) + {id}]
  }

  function Untrack(users: map<string, set<TicketId>>, u: string, id: TicketId): map<string, set<TicketId>> {
    if u !in users then users
    else if users[u] - {id} == {} then users - {u}
    else users[u := users[u] - {id}]
  }

  // ------------------------------------------------------------------ the operations

  /** The ids counted against a user: those tracked for it that are in the ticket map. */
  function CountedIds(q: Queue, u: string): set<TicketId> {
    if u !in q.users then {} else
    set id | id in q.users[u] && id in q.tickets && q.tickets[id].status in {WAITING, READY, ACTIVE}
  }

  predicate HasCapacity(c: Limits, q: Queue, more: nat) {
    |q.sessions| < c.maxSessions && TotalBytes(q.sessions) + more <= c.maxBytes
  }

  function OpenSession(q: Queue, size: nat): Queue {
    q.(sessions := q.sessions + [Session(q.nextSession, size)], nextSession := q.nextSession + 1)
  }

  /** A request admitted at once. */
  function Admit(q: Queue, request: Request, u: string): Queue {
    OpenSession(q, request.totalSize).(users := Track(q.users, u, Direct(q.nextSession)))
  }

  function Enqueue(c: Limits, q: Queue, request: Request, u: string, now: int): Queue {
    var id := Queued(q.nextTicket);
    q.(tickets := q.tickets[id := Ticket(u, WAITING, request, None, None, now + c.ttl)],
       waiting := q.waiting + [id],
       users := Track(q.users, u, id),
       nextTicket := q.nextTicket + 1)
  }

  predicate Promotable(c: Limits, q: Queue, id: TicketId, open: set<string>) {
    && id in q.tickets && q.tickets[id].status == WAITING
    && |CountedIds(q, q.tickets[id].user)| < c.perUser
    && HasCapacity(c, q, q.tickets[id].request.totalSize)
    && Accepted(open, q.tickets[id].request)
  }

  function MakeReady(q: Queue, id: TicketId, now: int): Queue
    requires id in q.tickets
  {
    var t := q.tickets[id];
    OpenSession(q, t.request.totalSize).(
      tickets := q.tickets[id := t.(status := READY, session := Some(q.nextSession), readyAt := Some(now))],
      waiting := RemoveFirst(q.waiting, id))
  }

  function TryPromote(c: Limits, q: Queue, id: TicketId, now: int, open: set<string>): (r: Queue)
    ensures |r.waiting| <= |q.waiting|
  {
    if Promotable(c, q, id, open) then MakeReady(q, id, now) else q
  }

  function HeadSize(q: Queue): nat
    requires q.waiting != []
  {
    if q.waiting[0] in q.tickets then q.tickets[q.waiting[0]].request.totalSize else 0
  }

  /** The promotion loop from counter i; note that the list shrinks while i grows. */
  function PromoteFrom(c: Limits, q: Queue, i: nat, now: int, open: set<string>): Queue
    decreases |q.waiting| - i
  {
    if i >= |q.waiting| || !HasCapacity(c, q, HeadSize(q)) then q
    else PromoteFrom(c, TryPromote(c, q, q.waiting[0], now, open), i + 1, now, open)
  }

  function PromoteNext(c: Limits, q: Queue, now: int, open: set<string>): Queue {
    PromoteFrom(c, q, 0, now, open)
  }

  function RemoveTicket(q: Queue, id: TicketId): Queue {
    q.(users := if id in q.tickets then Untrack(q.users, q.tickets[id].user, id) else q.users,
       waiting := RemoveFirst(q.waiting, id),
       tickets := q.tickets - {id})
  }

  function RemoveAll(q: Queue, dead: set<TicketId>): Queue {
    q.(users := map u | u in q.users && q.users[u] - dead != {} :: q.users[u] - dead,
       waiting := Without(q.waiting, dead),
       tickets := q.tickets - dead)
  }

  predicate ClaimLost(c: Limits, t: Ticket, now: int) {
    t.status == READY && t.readyAt.Some? && now - t.readyAt.value > c.claim
  }

  predicate Outdated(t: Ticket, now: int) {
    t.status in {WAITING, CANCELLED, EXPIRED} && now > t.expiresAt
  }

  /** The 30-second maintenance job. */
  function Maintain(c: Limits, q: Queue, now: int, open: set<string>): Queue {
    var q1 := RemoveAll(q, set id | id in q.tickets && ClaimLost(c, q.tickets[id], now));
    var q2 := RemoveAll(q1, set id | id in q1.tickets && Outdated(q1.tickets[id], now));
    PromoteNext(c, q2, now, open)
  }

  function Initiate(c: Limits, q: Queue, request: Request, u: string, now: int, open: set<string>): Queue {
    if request.totalSize > c.maxFile then q
    else if |CountedIds(q, u)| < c.perUser && HasCapacity(c, q, request.totalSize) then
      if Accepted(open, request) then Admit(q, request, u) else q
    else if |q.waiting| >= c.maxQueue then q
    else Enqueue(c, q, request, u, now)
  }

  function Poll(c: Limits, q: Queue, id: TicketId, now: int, open: set<string>): Queue {
    if id !in q.tickets then q else
    var t := q.tickets[id];
    if now > t.expiresAt then RemoveTicket(q, id)
    else if t.status == WAITING then TryPromote(c, q, id, now, open)
    else if ClaimLost(c, t, now) then RemoveTicket(q, id)
    else q
  }

  function Cancel(q: Queue, id: TicketId): Queue {
    if id in q.tickets && q.tickets[id].status != ACTIVE then RemoveTicket(q, id) else q
  }

  function DropSession(sessions: seq<Session>, id: nat): (r: seq<Session>)
    ensures |r| <= |sessions| && TotalBytes(r) <= TotalBytes(sessions)
  {
    if sessions == [] then [] else
    var last := sessions[|sessions| - 1];
    var r := DropSession(sessions[..|sessions| - 1], id) + (if last.id == id then [] else [last]);
    assert last.id != id ==> r[..|r| - 1] == DropSession(sessions[..|sessions| - 1], id);
    assert last.id == id ==> r == DropSession(sessions[..|sessions| - 1], id);
    r
  }

  datatype Call =
    | InitiateOrEnqueue(request: Request, user: string)
    | GetQueueStatus(id: TicketId)
    | CancelQueue(id: TicketId)
    | PromoteNextCall
    | QueueMaintenance
    | SessionEnds(session: nat)   // completed, aborted or expired elsewhere

  function Step(c: Limits, q: Queue, call: Call, now: int, open: set<string>): Queue {
    match call
    case InitiateOrEnqueue(request, u) => Initiate(c, q, request, u, now, open)
    case GetQueueStatus(id) => Poll(c, q, id, now, open)
    case CancelQueue(id) => Cancel(q, id)
    case PromoteNextCall => PromoteNext(c, q, now, open)
    case QueueMaintenance => Maintain(c, q, now, open)
    case SessionEnds(session) => q.(sessions := DropSession(q.sessions, session))
  }

  const EMPTY := Queue(map[], [], map[], [], 0, 0)

  datatype Event = Event(call: Call, now: int, open: set<string>)

  function Run(c: Limits, q: Queue, events: seq<Event>): Queue
    decreases |events|
  {
    if events == [] then q else
    var e := events[0];
    Run(c, Step(c, q, e.call, e.now, e.open), events[1..])
  }
}
