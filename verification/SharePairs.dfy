/** Share requests and the public shares they create: a file is shared with a target at most
    once at a time. */
module SharePairs {
  import opened Wrappers

  datatype Target = Target(internal: bool, userId: string)
  datatype Status = PENDING | APPROVED | REJECTED | CANCELED
  datatype Request = Request(status: Status, files: seq<string>, targets: seq<Target>, requester: string, endAt: int)
  datatype Share = Share(file: string, target: Target, expiresAt: int, blocked: bool, revoked: bool)
  datatype Pair = Pair(file: string, target: Target)

  /** The two tables, a row's position being its id, and the clock. */
  datatype State = State(requests: seq<Request>, shares: seq<Share>, now: int)

  predicate IsValid(share: Share, now: int) { !share.blocked && !share.revoked && now <= share.expiresAt }

  // ------------------------------------------------------------------ who covers a pair

  predicate CoversPair(r: Request, p: Pair) { r.status == PENDING && p.file in r.files && p.target in r.targets }

  predicate LivePair(share: Share, now: int, p: Pair) {
    share.file == p.file && share.target == p.target && IsValid(share, now)
  }

  function PendingCount(requests: seq<Request>, p: Pair): nat {
    if requests == [] then 0
    else PendingCount(requests[..|requests| - 1], p) + (if CoversPair(requests[|requests| - 1], p) then 1 else 0)
  }

  function LiveCount(shares: seq<Share>, now: int, p: Pair): nat {
    if shares == [] then 0
    else LiveCount(shares[..|shares| - 1], now, p) + (if LivePair(shares[|shares| - 1], now, p) then 1 else 0)
  }

  function Cover(s: State, p: Pair): nat { PendingCount(s.requests, p) + LiveCount(s.shares, s.now, p) }

  // ------------------------------------------------------------------ the operations

  /** `findActivePublicShare`: same file, same kind of user, same id, and valid. */
  predicate HasActive(shares: seq<Share>, now: int, p: Pair) {
    exists k :: 0 <= k < |shares| && LivePair(shares[k], now, p)
  }

  /** `findPendingByFileAndTarget` compares the user id alone. */
  predicate AsksFor(r: Request, file: string, userId: string) {
    r.status == PENDING && file in r.files && exists k :: 0 <= k < |r.targets| && r.targets[k].userId == userId
  }

  predicate HasPending(requests: seq<Request>, file: string, userId: string) {
    exists k :: 0 <= k < |requests| && AsksFor(requests[k], file, userId)
  }

  predicate Conflicts(s: State, p: Pair) {
    HasActive(s.shares, s.now, p) || HasPending(s.requests, p.file, p.target.userId)
  }

  predicate Free(s: State, files: seq<string>, targets: seq<Target>) {
    forall i, j :: 0 <= i < |files| && 0 <= j < |targets| ==> !Conflicts(s, Pair(files[i], targets[j]))
  }

  function SharesOf(file: string, targets: seq<Target>, endAt: int): seq<Share> {
    if targets == [] then []
    else SharesOf(file, targets[..|targets| - 1], endAt) + [Share(file, targets[|targets| - 1], endAt, false, false)]
  }

  /** `createPublicShares`: one share for each file and each target. */
  function NewShares(files: seq<string>, targets: seq<Target>, endAt: int): seq<Share> {
    if files == [] then []
    else NewShares(files[..|files| - 1], targets, endAt) + SharesOf(files[|files| - 1], targets, endAt)
  }

  function SetStatus(requests: seq<Request>, id: nat, status: Status): seq<Request>
    requires id < |requests|
  {
    requests[id := requests[id].(status := status)]
  }

  predicate Decidable(s: State, id: nat) { id < |s.requests| && s.requests[id].status == PENDING }

  function Create(s: State, direct: bool, requester: string, files: seq<string>, targets: seq<Target>, startAt: int, endAt: int): State {
    if startAt >= endAt || !Free(s, files, targets) then s
    else
      var r := Request(PENDING, files, targets, requester, endAt);
      if direct then
        s.(requests := s.requests + [r.(status := APPROVED)], shares := s.shares + NewShares(files, targets, endAt))
      else s.(requests := s.requests + [r])
  }

  function Approve(s: State, id: nat): State {
    if !Decidable(s, id) then s else
    var r := s.requests[id];
    s.(requests := SetStatus(s.requests, id, APPROVED), shares := s.shares + NewShares(r.files, r.targets, r.endAt))
  }

  function Reject(s: State, id: nat, commented: bool): State {
    if Decidable(s, id) && commented then s.(requests := SetStatus(s.requests, id, REJECTED)) else s
  }

  function Cancel(s: State, id: nat, user: string): State {
    if Decidable(s, id) && s.requests[id].requester == user then s.(requests := SetStatus(s.requests, id, CANCELED)) else s
  }

  datatype Call =
    | CreateCall(direct: bool, requester: string, files: seq<string>, targets: seq<Target>, startAt: int, endAt: int)
    | ApproveCall(id: nat)
    | RejectCall(id: nat, commented: bool)
    | CancelCall(id: nat, user: string)
    | BlockCall(share: nat)
    | RevokeCall(share: nat)
    | Wait(time: nat)

  function Step(s: State, call: Call): State {
    match call
    case CreateCall(direct, requester, files, targets, startAt, endAt) => Create(s, direct, requester, files, targets, startAt, endAt)
    case ApproveCall(id) => Approve(s, id)
    case RejectCall(id, commented) => Reject(s, id, commented)
    case CancelCall(id, user) => Cancel(s, id, user)
    case BlockCall(k) => if k < |s.shares| then s.(shares := s.shares[k := s.shares[k].(blocked := true)]) else s
    case RevokeCall(k) => if k < |s.shares| then s.(shares := s.shares[k := s.shares[k].(revoked := true)]) else s
    case Wait(time) => s.(now := s.now + time)
  }

  function Run(s: State, calls: seq<Call>): State
    decreases |calls|
  {
    if calls == [] then s else Run(Step(s, calls[0]), calls[1..])
  }

  // ------------------------------------------------------------------ counting

  function Occurs<T(==)>(s: seq<T>, x: T): nat {
    if s == [] then 0 else Occurs(s[..|s| - 1], x) + (if s[|s| - 1] == x then 1 else 0)
  }

  ghost predicate Once<T(!new)>(s: seq<T>) { forall x :: Occurs(s, x) <= 1 }

  lemma {:induction false} OccursIn<T>(s: seq<T>, x: T)
    ensures Occurs(s, x) > 0 <==> x in s
  {
    if s != [] {
      OccursIn(s[..|s| - 1], x);
      assert s == s[..|s| - 1] + [s[|s| - 1]];
    }
  }

  lemma {:induction false} LiveAppend(a: seq<Share>, b: seq<Share>, now: int, p: Pair)
    ensures LiveCount(a + b, now, p) == LiveCount(a, now, p) + LiveCount(b, now, p)
  {
    if b == [] {
      assert a + b == a;
    } else {
      LiveAppend(a, b[..|b| - 1], now, p);
      assert (a + b)[..|a + b| - 1] == a + b[..|b| - 1];
    }
  }

  lemma {:induction false} SharesCount(file: string, targets: seq<Target>, endAt: int, now: int, p: Pair)
    ensures LiveCount(SharesOf(file, targets, endAt), now, p)
            == if file == p.file && now <= endAt then Occurs(targets, p.target) else 0
    ensures |SharesOf(file, targets, endAt)| == |targets|
  {
    if targets != [] {
      SharesCount(file, targets[..|targets| - 1], endAt, now, p);
      var last := Share(file, targets[|targets| - 1], endAt, false, false);
      assert LiveCount([last], now, p) == if LivePair(last, now, p) then 1 else 0 by { assert [last][..0] == []; }
      LiveAppend(SharesOf(file, targets[..|targets| - 1], endAt), [last], now, p);
    }
  }

  lemma Product(a: nat, b: nat)
    ensures (a + 1) * b == a * b + b
  {}

  /** Approval creates |files| * |targets| shares, and for each pair as many as its file and
      its target are listed. */
  lemma {:induction false} NewSharesCount(files: seq<string>, targets: seq<Target>, endAt: int, now: int, p: Pair)
    ensures |NewShares(files, targets, endAt)| == |files| * |targets|
    ensures LiveCount(NewShares(files, targets, endAt), now, p)
            == if now <= endAt then Occurs(files, p.file) * Occurs(targets, p.target) else 0
  {
    if files != [] {
      var rest, last := files[..|files| - 1], files[|files| - 1];
      NewSharesCount(rest, targets, endAt, now, p);
      SharesCount(last, targets, endAt, now, p);
      LiveAppend(NewShares(rest, targets, endAt), SharesOf(last, targets, endAt), now, p);
      Product(|rest|, |targets|);
      Product(Occurs(rest, p.file), Occurs(targets, p.target));
    }
  }

  /** Lists that name no pair twice: without repetition, unless one of them is empty. */
  ghost predicate Clean(files: seq<string>, targets: seq<Target>) {
    files == [] || targets == [] || (Once(files) && Once(targets))
  }

  lemma ProductAtMostOne(a: nat, b: nat)
    ensures a * b <= 1 <==> a == 0 || b == 0 || (a == 1 && b == 1)
  {
    if a >= 2 && b >= 1 { assert a * b >= 2 * b; }
    if b >= 2 && a >= 1 { assert a * b >= a * 2; }
  }

  /** The shares to be created cover p at most once. */
  predicate NewOnce(files: seq<string>, targets: seq<Target>, endAt: int, now: int, p: Pair) {
    LiveCount(NewShares(files, targets, endAt), now, p) <= 1
  }

  lemma CleanOnce(files: seq<string>, targets: seq<Target>, endAt: int, now: int, p: Pair)
    requires Clean(files, targets)
    ensures NewOnce(files, targets, endAt, now, p)
  {
    NewSharesCount(files, targets, endAt, now, p);
    ProductAtMostOne(Occurs(files, p.file), Occurs(targets, p.target));
    assert files == [] ==> Occurs(files, p.file) == 0;
    assert targets == [] ==> Occurs(targets, p.target) == 0;
  }

  lemma OnceFactors(files: seq<string>, targets: seq<Target>, endAt: int, now: int, p: Pair)
    requires now <= endAt && p.file in files && p.target in targets && NewOnce(files, targets, endAt, now, p)
    ensures Occurs(files, p.file) == 1 && Occurs(targets, p.target) == 1
  {
    NewSharesCount(files, targets, endAt, now, p);
    OccursIn(files, p.file);
    OccursIn(targets, p.target);
    ProductAtMostOne(Occurs(files, p.file), Occurs(targets, p.target));
  }

  /** While unexpired, the new shares cover no pair twice iff the lists are clean. */
  lemma NewSharesExact(files: seq<string>, targets: seq<Target>, endAt: int, now: int)
    requires now <= endAt
    ensures (forall p {:trigger NewOnce(files, targets, endAt, now, p)} :: NewOnce(files, targets, endAt, now, p)) <==> Clean(files, targets)
  {
    if Clean(files, targets) {
      forall p ensures NewOnce(files, targets, endAt, now, p) { CleanOnce(files, targets, endAt, now, p); }
    } else if forall p {:trigger NewOnce(files, targets, endAt, now, p)} :: NewOnce(files, targets, endAt, now, p) {
      forall f ensures Occurs(files, f) <= 1 {
        OccursIn(files, f);
        assert NewOnce(files, targets, endAt, now, Pair(f, targets[0]));
        if f in files { OnceFactors(files, targets, endAt, now, Pair(f, targets[0])); }
      }
      forall t ensures Occurs(targets, t) <= 1 {
        OccursIn(targets, t);
        assert NewOnce(files, targets, endAt, now, Pair(files[0], t));
        if t in targets { OnceFactors(files, targets, endAt, now, Pair(files[0], t)); }
      }
    }
  }

  lemma {:induction false} PendingAppend(requests: seq<Request>, r: Request, p: Pair)
    ensures PendingCount(requests + [r], p) == PendingCount(requests, p) + if CoversPair(r, p) then 1 else 0
  {
    assert (requests + [r])[..|requests|] == requests;
  }

  /** Deciding a request takes exactly its own coverage away. */
  lemma {:induction false} PendingDecided(requests: seq<Request>, id: nat, status: Status, p: Pair)
    requires id < |requests| && status != PENDING
    ensures PendingCount(SetStatus(requests, id, status), p)
            == PendingCount(requests, p) - if CoversPair(requests[id], p) then 1 else 0
  {
    var n := |requests| - 1;
    if id < n {
      PendingDecided(requests[..n], id, status, p);
      assert SetStatus(requests, id, status)[..n] == SetStatus(requests[..n], id, status);
    } else {
      assert SetStatus(requests, id, status)[..n] == requests[..n];
    }
  }

  lemma {:induction false} NonePending(requests: seq<Request>, p: Pair)
    requires !HasPending(requests, p.file, p.target.userId)
    ensures PendingCount(requests, p) == 0
  {
    if requests != [] {
      var n := |requests| - 1;
      forall k | 0 <= k < n ensures !AsksFor(requests[..n][k], p.file, p.target.userId) {
        assert !AsksFor(requests[k], p.file, p.target.userId);
      }
      NonePending(requests[..n], p);
      assert !AsksFor(requests[n], p.file, p.target.userId);
      if p.target in requests[n].targets {
        var k :| 0 <= k < |requests[n].targets| && requests[n].targets[k] == p.target;
      }
    }
  }

  lemma {:induction false} NoneLive(shares: seq<Share>, now: int, p: Pair)
    requires !HasActive(shares, now, p)
    ensures LiveCount(shares, now, p) == 0
  {
    if shares != [] {
      var n := |shares| - 1;
      forall k | 0 <= k < n ensures !LivePair(shares[..n][k], now, p) { assert !LivePair(shares[k], now, p); }
      NoneLive(shares[..n], now, p);
      assert !LivePair(shares[n], now, p);
    }
  }

  /** Blocking, revoking and the passing of time only end coverage. */
  lemma {:induction false} LiveShrinks(a: seq<Share>, b: seq<Share>, now: int, later: int, p: Pair)
    requires |a| == |b| && now <= later
    requires forall k | 0 <= k < |a| :: LivePair(b[k], later, p) ==> LivePair(a[k], now, p)
    ensures LiveCount(b, later, p) <= LiveCount(a, now, p)
  {
    if a != [] {
      var n := |a| - 1;
      LiveShrinks(a[..n], b[..n], now, later, p);
      assert LivePair(b[n], later, p) ==> LivePair(a[n], now, p);
    }
  }

  // ------------------------------------------------------------------ over runs

  predicate AtMostOnce(s: State, p: Pair) { Cover(s, p) <= 1 }

  ghost predicate AllOnce(s: State) { forall p {:trigger AtMostOnce(s, p)} :: AtMostOnce(s, p) }

  ghost predicate PendingClean(s: State) {
    forall k | 0 <= k < |s.requests| && s.requests[k].status == PENDING :: Clean(s.requests[k].files, s.requests[k].targets)
  }

  ghost predicate Inv(s: State) {
    AllOnce(s) && PendingClean(s)
  }

  lemma StartSafe(now: int)
    ensures Inv(State([], [], now))
  {
    forall p ensures AtMostOnce(State([], [], now), p) {}
  }

  lemma FreeCover(s: State, files: seq<string>, targets: seq<Target>, p: Pair)
    requires Free(s, files, targets) && p.file in files && p.target in targets
    ensures Cover(s, p) == 0
  {
    var i :| 0 <= i < |files| && files[i] == p.file;
    var j :| 0 <= j < |targets| && targets[j] == p.target;
    assert !Conflicts(s, Pair(files[i], targets[j]));
    assert Pair(files[i], targets[j]) == p;
    NonePending(s.requests, p);
    NoneLive(s.shares, s.now, p);
  }

  lemma CleanCount(files: seq<string>, targets: seq<Target>, endAt: int, now: int, p: Pair)
    requires Clean(files, targets)
    ensures LiveCount(NewShares(files, targets, endAt), now, p)
            <= if p.file in files && p.target in targets then 1 else 0
  {
    NewSharesCount(files, targets, endAt, now, p);
    CleanOnce(files, targets, endAt, now, p);
    OccursIn(files, p.file);
    OccursIn(targets, p.target);
    if Occurs(files, p.file) == 0 { assert Occurs(files, p.file) * Occurs(targets, p.target) == 0; }
  }

  /** Expired shares cover nothing. */
  lemma CountLate(files: seq<string>, targets: seq<Target>, endAt: int, now: int, p: Pair)
    requires now > endAt
    ensures LiveCount(NewShares(files, targets, endAt), now, p) == 0
  {
    NewSharesCount(files, targets, endAt, now, p);
  }

  predicate Accepted(s: State, files: seq<string>, targets: seq<Target>, startAt: int, endAt: int) {
    startAt < endAt && Free(s, files, targets)
  }

  /** The shares a decision or a direct create makes are no danger: none is live, or no pair
      is named twice. */
  ghost predicate Harmless(files: seq<string>, targets: seq<Target>, endAt: int, now: int) {
    now > endAt || Clean(files, targets)
  }

  lemma HarmlessCount(files: seq<string>, targets: seq<Target>, endAt: int, now: int, p: Pair)
    requires Harmless(files, targets, endAt, now)
    ensures LiveCount(NewShares(files, targets, endAt), now, p) <= if p.file in files && p.target in targets then 1 else 0
  {
    if now > endAt { CountLate(files, targets, endAt, now, p); } else { CleanCount(files, targets, endAt, now, p); }
  }

  lemma HarmfulTwice(files: seq<string>, targets: seq<Target>, endAt: int, now: int) returns (p: Pair)
    requires !Harmless(files, targets, endAt, now)
    ensures LiveCount(NewShares(files, targets, endAt), now, p) > 1
  {
    NewSharesExact(files, targets, endAt, now);
    p :| !NewOnce(files, targets, endAt, now, p);
  }

  /** A request that waits for a decision never breaks anything by itself. */
  lemma CreatePendingKeeps(s: State, requester: string, files: seq<string>, targets: seq<Target>, startAt: int, endAt: int)
    requires AllOnce(s)
    ensures AllOnce(Create(s, false, requester, files, targets, startAt, endAt))
  {
    var s' := Create(s, false, requester, files, targets, startAt, endAt);
    forall p ensures AtMostOnce(s', p) {
      assert AtMostOnce(s, p);
      if Accepted(s, files, targets, startAt, endAt) {
        PendingAppend(s.requests, Request(PENDING, files, targets, requester, endAt), p);
        if p.file in files && p.target in targets { FreeCover(s, files, targets, p); }
      }
    }
  }

  lemma DirectCount(s: State, requester: string, files: seq<string>, targets: seq<Target>, startAt: int, endAt: int, p: Pair)
    requires Accepted(s, files, targets, startAt, endAt)
    ensures Cover(Create(s, true, requester, files, targets, startAt, endAt), p)
            == Cover(s, p) + LiveCount(NewShares(files, targets, endAt), s.now, p)
  {
    PendingAppend(s.requests, Request(APPROVED, files, targets, requester, endAt), p);
    LiveAppend(s.shares, NewShares(files, targets, endAt), s.now, p);
  }

  /** A direct create that is accepted keeps every pair covered at most once iff its shares
      are harmless. */
  lemma DirectExact(s: State, requester: string, files: seq<string>, targets: seq<Target>, startAt: int, endAt: int)
    requires AllOnce(s) && Accepted(s, files, targets, startAt, endAt)
    ensures AllOnce(Create(s, true, requester, files, targets, startAt, endAt)) <==> Harmless(files, targets, endAt, s.now)
  {
    var s' := Create(s, true, requester, files, targets, startAt, endAt);
    if Harmless(files, targets, endAt, s.now) {
      forall p ensures AtMostOnce(s', p) {
        assert AtMostOnce(s, p);
        DirectCount(s, requester, files, targets, startAt, endAt, p);
        HarmlessCount(files, targets, endAt, s.now, p);
        if p.file in files && p.target in targets { FreeCover(s, files, targets, p); }
      }
    } else {
      var p := HarmfulTwice(files, targets, endAt, s.now);
      DirectCount(s, requester, files, targets, startAt, endAt, p);
      assert !AtMostOnce(s', p);
    }
  }

  lemma ApproveCount(s: State, id: nat, p: Pair)
    requires Decidable(s, id)
    ensures var r := s.requests[id];
            Cover(Approve(s, id), p) == Cover(s, p) - (if CoversPair(r, p) then 1 else 0)
                                        + LiveCount(NewShares(r.files, r.targets, r.endAt), s.now, p)
            && Cover(Approve(s, id), p) >= LiveCount(NewShares(r.files, r.targets, r.endAt), s.now, p)
  {
    var r := s.requests[id];
    PendingDecided(s.requests, id, APPROVED, p);
    LiveAppend(s.shares, NewShares(r.files, r.targets, r.endAt), s.now, p);
  }

  /** An approval keeps every pair covered at most once iff the request's shares are harmless. */
  lemma ApproveExact(s: State, id: nat)
    requires AllOnce(s) && Decidable(s, id)
    ensures AllOnce(Approve(s, id)) <==> Harmless(s.requests[id].files, s.requests[id].targets, s.requests[id].endAt, s.now)
  {
    var r := s.requests[id];
    if Harmless(r.files, r.targets, r.endAt, s.now) {
      forall p ensures AtMostOnce(Approve(s, id), p) {
        assert AtMostOnce(s, p);
        ApproveCount(s, id, p);
        HarmlessCount(r.files, r.targets, r.endAt, s.now, p);
      }
    } else {
      var p := HarmfulTwice(r.files, r.targets, r.endAt, s.now);
      ApproveCount(s, id, p);
      assert !AtMostOnce(Approve(s, id), p);
    }
  }

  lemma CreateKeeps(s: State, direct: bool, requester: string, files: seq<string>, targets: seq<Target>, startAt: int, endAt: int)
    requires Inv(s) && Clean(files, targets)
    ensures Inv(Create(s, direct, requester, files, targets, startAt, endAt))
  {
    if !direct {
      CreatePendingKeeps(s, requester, files, targets, startAt, endAt);
    } else if Accepted(s, files, targets, startAt, endAt) {
      DirectExact(s, requester, files, targets, startAt, endAt);
    }
  }

  lemma ApproveKeeps(s: State, id: nat)
    requires Inv(s)
    ensures Inv(Approve(s, id))
  {
    if Decidable(s, id) { ApproveExact(s, id); }
  }

  lemma DecideKeeps(s: State, id: nat, status: Status)
    requires AllOnce(s) && id < |s.requests| && status != PENDING
    ensures AllOnce(s.(requests := SetStatus(s.requests, id, status)))
  {
    var s' := s.(requests := SetStatus(s.requests, id, status));
    forall p ensures AtMostOnce(s', p) {
      assert AtMostOnce(s, p);
      PendingDecided(s.requests, id, status, p);
    }
  }

  lemma EndingKeeps(s: State, s': State)
    requires AllOnce(s) && s'.requests == s.requests && |s'.shares| == |s.shares| && s.now <= s'.now
    requires forall k, p | 0 <= k < |s.shares| :: LivePair(s'.shares[k], s'.now, p) ==> LivePair(s.shares[k], s.now, p)
    ensures AllOnce(s')
  {
    forall p ensures AtMostOnce(s', p) {
      assert AtMostOnce(s, p);
      LiveShrinks(s.shares, s'.shares, s.now, s'.now, p);
    }
  }

  ghost predicate CleanCall(call: Call) { call.CreateCall? ==> Clean(call.files, call.targets) }

  lemma StepKeeps(s: State, call: Call)
    requires Inv(s) && CleanCall(call)
    ensures Inv(Step(s, call))
  {
    match call
    case CreateCall(direct, requester, files, targets, startAt, endAt) => CreateKeeps(s, direct, requester, files, targets, startAt, endAt);
    case ApproveCall(id) => ApproveKeeps(s, id);
    case RejectCall(id, commented) => if Decidable(s, id) { DecideKeeps(s, id, REJECTED); }
    case CancelCall(id, user) => if Decidable(s, id) { DecideKeeps(s, id, CANCELED); }
    case BlockCall(k) => EndingKeeps(s, Step(s, call));
    case RevokeCall(k) => EndingKeeps(s, Step(s, call));
    case Wait(time) => EndingKeeps(s, Step(s, call));
  }

  /** Main result: over every run whose requests list no file and no target twice, every pair
      is covered by at most one pending request or live share. */
  lemma {:induction false} RunKeeps(s: State, calls: seq<Call>)
    requires Inv(s) && forall k | 0 <= k < |calls| :: CleanCall(calls[k])
    ensures Inv(Run(s, calls))
    decreases |calls|
  {
    if calls != [] {
      assert CleanCall(calls[0]);
      StepKeeps(s, calls[0]);
      forall k | 0 <= k < |calls[1..]| ensures CleanCall(calls[1..][k]) { assert CleanCall(calls[k + 1]); }
      RunKeeps(Step(s, calls[0]), calls[1..]);
    }
  }

  /** A decision is final: no call changes a request that is no longer pending, and none
      changes what a request asks for. */
  lemma {:induction false} DecidedForever(s: State, calls: seq<Call>, id: nat)
    requires id < |s.requests|
    ensures var s' := Run(s, calls);
            id < |s'.requests| && s'.requests[id].(status := s.requests[id].status) == s.requests[id]
            && (s.requests[id].status != PENDING ==> s'.requests[id] == s.requests[id])
    decreases |calls|
  {
    if calls != [] { DecidedForever(Step(s, calls[0]), calls[1..], id); }
  }

  /** What a call decides about a pending request of this requester. */
  function Decision(call: Call, id: nat, requester: string): Status {
    if call == ApproveCall(id) then APPROVED
    else if call == RejectCall(id, true) then REJECTED
    else if call == CancelCall(id, requester) then CANCELED
    else PENDING
  }

  function FirstDecision(calls: seq<Call>, id: nat, requester: string): Status
    decreases |calls|
  {
    if calls == [] then PENDING
    else if Decision(calls[0], id, requester) != PENDING then Decision(calls[0], id, requester)
    else FirstDecision(calls[1..], id, requester)
  }

  /** Over every run the status of a pending request becomes the first decision made about
      it: an approval, a rejection with a comment, or a cancellation by its requester. */
  lemma {:induction false} FirstDecisionCounts(s: State, calls: seq<Call>, id: nat)
    requires Decidable(s, id)
    ensures id < |Run(s, calls).requests|
    ensures Run(s, calls).requests[id].status == FirstDecision(calls, id, s.requests[id].requester)
    decreases |calls|
  {
    if calls != [] {
      var s1 := Step(s, calls[0]);
      if Decidable(s1, id) { FirstDecisionCounts(s1, calls[1..], id); } else { DecidedForever(s1, calls[1..], id); }
    }
  }

  /** Over every run a share keeps its file, its target and its end, and is blocked or revoked
      iff it was before or a call does it. */
  lemma {:induction false} ShareFate(s: State, calls: seq<Call>, k: nat)
    requires k < |s.shares|
    ensures k < |Run(s, calls).shares|
    ensures Run(s, calls).shares[k] ==
            s.shares[k].(blocked := s.shares[k].blocked || BlockCall(k) in calls,
                         revoked := s.shares[k].revoked || RevokeCall(k) in calls)
    decreases |calls|
  {
    if calls != [] {
      ShareFate(Step(s, calls[0]), calls[1..], k);
      assert calls == [calls[0]] + calls[1..];
    }
  }

  /** An accepted create appends one request of what was asked for, decided iff it is direct,
      and a refused one changes nothing. */
  lemma Created(s: State, direct: bool, requester: string, files: seq<string>, targets: seq<Target>, startAt: int, endAt: int)
    ensures var s', n := Create(s, direct, requester, files, targets, startAt, endAt), |s.requests|;
            if Accepted(s, files, targets, startAt, endAt) then
              && |s'.requests| == n + 1 && s'.requests[..n] == s.requests
              && s'.requests[n].files == files && s'.requests[n].targets == targets
              && s'.requests[n].requester == requester && s'.requests[n].endAt == endAt
              && s'.requests[n].status == (if direct then APPROVED else PENDING)
              && |s'.shares| == |s.shares| + if direct then |files| * |targets| else 0
            else s' == s
  {
    NewSharesCount(files, targets, endAt, s.now, Pair("", Target(true, "")));
  }

  /** A call that leaves every pair covered at most once: told from its own lists, or from
      those of the request it approves. */
  ghost predicate Safe(s: State, call: Call) {
    match call
    case CreateCall(direct, requester, files, targets, startAt, endAt) =>
      direct && Accepted(s, files, targets, startAt, endAt) ==> Harmless(files, targets, endAt, s.now)
    case ApproveCall(id) =>
      Decidable(s, id) ==> Harmless(s.requests[id].files, s.requests[id].targets, s.requests[id].endAt, s.now)
    case _ => true
  }

  /** One call keeps every pair covered at most once iff it is safe. */
  lemma StepExact(s: State, call: Call)
    requires AllOnce(s)
    ensures AllOnce(Step(s, call)) <==> Safe(s, call)
  {
    match call
    case CreateCall(direct, requester, files, targets, startAt, endAt) =>
      if !direct {
        CreatePendingKeeps(s, requester, files, targets, startAt, endAt);
      } else if Accepted(s, files, targets, startAt, endAt) {
        DirectExact(s, requester, files, targets, startAt, endAt);
      }
    case ApproveCall(id) => if Decidable(s, id) { ApproveExact(s, id); }
    case RejectCall(id, commented) => if Decidable(s, id) { DecideKeeps(s, id, REJECTED); }
    case CancelCall(id, user) => if Decidable(s, id) { DecideKeeps(s, id, CANCELED); }
    case BlockCall(k) => EndingKeeps(s, Step(s, call));
    case RevokeCall(k) => EndingKeeps(s, Step(s, call));
    case Wait(time) => EndingKeeps(s, Step(s, call));
  }

  /** Every state of the run covers each pair at most once. */
  ghost predicate CorrectRun(s: State, calls: seq<Call>)
    decreases |calls|
  {
    AllOnce(s) && (calls != [] ==> CorrectRun(Step(s, calls[0]), calls[1..]))
  }

  ghost predicate SafeRun(s: State, calls: seq<Call>)
    decreases |calls|
  {
    calls != [] ==> Safe(s, calls[0]) && SafeRun(Step(s, calls[0]), calls[1..])
  }

  /** Main result over runs: from a state that covers each pair at most once, all states of a
      run do iff every call in it is safe when it comes. Nothing in the service checks the
      lists for repetitions. */
  lemma {:induction false} RunExact(s: State, calls: seq<Call>)
    requires AllOnce(s)
    ensures CorrectRun(s, calls) <==> SafeRun(s, calls)
    decreases |calls|
  {
    if calls != [] {
      StepExact(s, calls[0]);
      if AllOnce(Step(s, calls[0])) { RunExact(Step(s, calls[0]), calls[1..]); }
    }
  }

  const USER := Target(true, "u")
  const SHARE := Share("f", USER, 10, false, false)
  const TWICE := CreateCall(true, "owner", ["f", "f"], [USER], 0, 10)

  lemma TwiceShares()
    ensures NewShares(["f", "f"], [USER], 10) == [SHARE, SHARE]
  {
    assert [USER][..0] == [] && ["f", "f"][..1] == ["f"] && ["f"][..0] == [];
    assert SharesOf("f", [USER], 10) == [SHARE];
    assert NewShares(["f"], [USER], 10) == [SHARE];
  }

  lemma TwiceCovered(s: State)
    requires s.shares == [SHARE, SHARE] && s.now == 0
    ensures Cover(s, Pair("f", USER)) >= 2
  {
    assert [SHARE, SHARE][..1] == [SHARE] && [SHARE][..0] == [];
    assert LiveCount([SHARE], 0, Pair("f", USER)) == 1;
  }

  /** One direct request that lists a file twice, on the empty tables: two live shares. */
  lemma TwiceFromNothing()
    ensures Inv(State([], [], 0))
    ensures Run(State([], [], 0), [TWICE]).shares == [SHARE, SHARE]
    ensures Cover(Run(State([], [], 0), [TWICE]), Pair("f", USER)) >= 2
    ensures !CorrectRun(State([], [], 0), [TWICE])
  {
    StartSafe(0);
    TwiceShares();
    var s := State([], [], 0);
    var s1 := Step(s, TWICE);
    assert [TWICE][1..] == [] && Run(s1, []) == s1;
    TwiceCovered(s1);
    assert !AtMostOnce(s1, Pair("f", USER));
    assert !CorrectRun(s1, []);
  }

  /** Bulk approval re-checks each request for duplicates while the request itself is still
      pending, so the check finds a conflict for every request that names a file and a
      target, and only an empty one passes. */
  lemma BulkApproveRefuses(s: State, id: nat)
    requires Decidable(s, id)
    ensures !Free(s, s.requests[id].files, s.requests[id].targets) <==> s.requests[id].files != [] && s.requests[id].targets != []
  {
    var r := s.requests[id];
    if r.files != [] && r.targets != [] {
      assert AsksFor(r, r.files[0], r.targets[0].userId);
      assert Conflicts(s, Pair(r.files[0], r.targets[0]));
    }
  }
}
