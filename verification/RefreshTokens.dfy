/** Refresh-token rotation with reuse detection. A token stands for its hash, and every call
    is one atomic step on the token table. */
module RefreshTokens {
  import opened Wrappers

  type Token = nat
  type Family = nat

  datatype Row = Row(user: string, family: Family, isUsed: bool, isRevoked: bool, expiresAt: int)

  /** The table by token; tokens and families are drawn fresh. */
  datatype Store = Store(rows: map<Token, Row>, nextToken: Token, nextFamily: Family)

  datatype Outcome = Issued(token: Token) | Invalid | ReuseDetected | Revoked | Expired

  // ------------------------------------------------------------------ the operations

  function Insert(s: Store, user: string, family: Family, expiresAt: int): Store {
    s.(rows := s.rows[s.nextToken := Row(user, family, false, false, expiresAt)], nextToken := s.nextToken + 1)
  }

  function Login(s: Store, user: string, expiresAt: int): Store {
    Insert(s, user, s.nextFamily, expiresAt).(nextFamily := s.nextFamily + 1)
  }

  function RevokeFamily(s: Store, family: Family): Store {
    s.(rows := map t | t in s.rows :: if s.rows[t].family == family then s.rows[t].(isRevoked := true) else s.rows[t])
  }

  function RevokeAllForUser(s: Store, user: string): Store {
    s.(rows := map t | t in s.rows :: if s.rows[t].user == user then s.rows[t].(isRevoked := true) else s.rows[t])
  }

  function CleanupExpired(s: Store, now: int): Store {
    s.(rows := map t | t in s.rows && s.rows[t].expiresAt >= now :: s.rows[t])
  }

  function RotateOutcome(s: Store, token: Token, now: int): Outcome {
    if token !in s.rows then Invalid
    else if s.rows[token].isUsed then ReuseDetected
    else if s.rows[token].isRevoked then Revoked
    else if s.rows[token].expiresAt < now then Expired
    else Issued(s.nextToken)
  }

  function Rotate(s: Store, token: Token, now: int, expiresAt: int): Store {
    match RotateOutcome(s, token, now)
    case ReuseDetected => RevokeFamily(s, s.rows[token].family)
    case Issued(_) =>
      var row := s.rows[token];
      Insert(s.(rows := s.rows[token := row.(isUsed := true)]), row.user, row.family, expiresAt)
    case _ => s
  }

  datatype Call =
    | LoginCall(user: string, expiresAt: int)
    | RotateCall(token: Token, expiresAt: int)
    | LogoutCall(user: string)
    | CleanupCall

  datatype Event = Event(call: Call, now: int)

  function Step(s: Store, e: Event): Store {
    match e.call
    case LoginCall(user, expiresAt) => Login(s, user, expiresAt)
    case RotateCall(token, expiresAt) => Rotate(s, token, e.now, expiresAt)
    case LogoutCall(user) => RevokeAllForUser(s, user)
    case CleanupCall => CleanupExpired(s, e.now)
  }

  function Run(s: Store, events: seq<Event>): Store
    decreases |events|
  {
    if events == [] then s else Run(Step(s, events[0]), events[1..])
  }

  // ------------------------------------------------------------------ the invariant

  predicate Usable(s: Store, t: Token) { t in s.rows && !s.rows[t].isUsed && !s.rows[t].isRevoked }

  predicate Known(s: Store, t: Token) { t in s.rows ==> t < s.nextToken && s.rows[t].family < s.nextFamily }

  /** Two rows of one family belong to one user, and are not both usable. */
  predicate Compatible(s: Store, t: Token, u: Token) {
    t in s.rows && u in s.rows && s.rows[t].family == s.rows[u].family ==>
      s.rows[t].user == s.rows[u].user && (Usable(s, t) && Usable(s, u) ==> t == u)
  }

  ghost predicate Inv(s: Store) {
    && (forall t {:trigger Known(s, t)} :: Known(s, t))
    && (forall t, u {:trigger Compatible(s, t, u)} :: Compatible(s, t, u))
  }

  lemma StepKeeps(s: Store, e: Event)
    requires Inv(s)
    ensures Inv(Step(s, e))
  {
    var s' := Step(s, e);
    forall t ensures Known(s', t) {
      assert Known(s, t);
      if e.call.RotateCall? { assert Known(s, e.call.token); }
    }
    forall t, u ensures Compatible(s', t, u) {
      assert Known(s, t) && Known(s, u) && Compatible(s, t, u);
      if e.call.RotateCall? { assert Compatible(s, t, e.call.token) && Compatible(s, e.call.token, u); }
    }
  }

  /** Main result: in every reachable state a family has at most one token that is neither
      used nor revoked, and one user. */
  lemma {:induction false} RunKeeps(s: Store, events: seq<Event>)
    requires Inv(s)
    ensures Inv(Run(s, events))
    decreases |events|
  {
    if events != [] {
      StepKeeps(s, events[0]);
      RunKeeps(Step(s, events[0]), events[1..]);
    }
  }

  // ------------------------------------------------------------------ what never works again

  /** A family that exists no more or whose every row is revoked. */
  ghost predicate Dead(s: Store, family: Family) {
    family < s.nextFamily && forall t | t in s.rows && s.rows[t].family == family :: s.rows[t].isRevoked
  }

  lemma {:induction false} DeadForever(s: Store, events: seq<Event>, family: Family)
    requires Inv(s) && Dead(s, family)
    ensures Dead(Run(s, events), family)
    decreases |events|
  {
    if events != [] {
      StepKeeps(s, events[0]);
      DeadForever(Step(s, events[0]), events[1..], family);
    }
  }

  predicate OfFamily(s: Store, t: Token, family: Family) { t in s.rows && s.rows[t].family == family }

  /** A token of a dead family is refused. */
  lemma DeadRefused(s: Store, t: Token, family: Family, now: int)
    requires Dead(s, family) && OfFamily(s, t, family)
    ensures !RotateOutcome(s, t, now).Issued?
  {}

  /** Main result: once reuse has been detected, no token of the family succeeds in any later state. */
  lemma ReuseKillsFamily(s: Store, token: Token, now: int, expiresAt: int, later: seq<Event>, t: Token, then_: int)
    requires Inv(s) && RotateOutcome(s, token, now).ReuseDetected?
    ensures var family := s.rows[token].family;
            var end := Run(Rotate(s, token, now, expiresAt), later);
            Dead(end, family) && (OfFamily(end, t, family) ==> !RotateOutcome(end, t, then_).Issued?)
  {
    var s1 := Rotate(s, token, now, expiresAt);
    StepKeeps(s, Event(RotateCall(token, expiresAt), now));
    assert Known(s, token);
    var end, family := Run(s1, later), s.rows[token].family;
    DeadForever(s1, later, family);
    if OfFamily(end, t, family) { DeadRefused(end, t, family, then_); }
  }

  /** After logout no token issued to the user before works again; sessions opened later do. */
  lemma LogoutKillsFamilies(s: Store, user: string, later: seq<Event>, held: Token, t: Token, then_: int)
    requires Inv(s) && held in s.rows && s.rows[held].user == user
    ensures var end, family := Run(RevokeAllForUser(s, user), later), s.rows[held].family;
            Dead(end, family) && (OfFamily(end, t, family) ==> !RotateOutcome(end, t, then_).Issued?)
  {
    var s1, family := RevokeAllForUser(s, user), s.rows[held].family;
    StepKeeps(s, Event(LogoutCall(user), 0));
    assert Known(s, held);
    forall t | t in s1.rows && s1.rows[t].family == family ensures s1.rows[t].isRevoked { assert Compatible(s, t, held); }
    DeadForever(s1, later, family);
    if OfFamily(Run(s1, later), t, family) { DeadRefused(Run(s1, later), t, family, then_); }
  }

  /** A token that has been exchanged: its row is marked, or gone. */
  predicate Spent(s: Store, t: Token) { t < s.nextToken && (t in s.rows ==> s.rows[t].isUsed) }

  lemma {:induction false} SpentForever(s: Store, events: seq<Event>, t: Token)
    requires Spent(s, t)
    ensures Spent(Run(s, events), t)
    decreases |events|
  {
    if events != [] { SpentForever(Step(s, events[0]), events[1..], t); }
  }

  /** No token is ever exchanged twice, over any run. */
  lemma ExchangedOnce(s: Store, token: Token, now: int, expiresAt: int, later: seq<Event>, then_: int)
    requires Inv(s) && RotateOutcome(s, token, now).Issued?
    ensures !RotateOutcome(Run(Rotate(s, token, now, expiresAt), later), token, then_).Issued?
  {
    assert Known(s, token);
    SpentForever(Rotate(s, token, now, expiresAt), later, token);
  }

  /** The chain goes on: the token handed out can be exchanged in turn, exactly until it
      expires, for the same user and in the same family. */
  lemma NewTokenWorks(s: Store, token: Token, now: int, expiresAt: int, next: int)
    requires Inv(s) && RotateOutcome(s, token, now).Issued?
    ensures var s1, issued := Rotate(s, token, now, expiresAt), RotateOutcome(s, token, now).token;
            && OfFamily(s1, issued, s.rows[token].family) && s1.rows[issued].user == s.rows[token].user
            && (RotateOutcome(s1, issued, next).Issued? <==> next <= expiresAt)
            && RotateOutcome(s1, token, next) == ReuseDetected
  {
    assert Known(s, token);
  }

  /** A rotation, successful or not, touches no row of another family. */
  lemma OthersUntouched(s: Store, token: Token, now: int, expiresAt: int, t: Token)
    requires Inv(s) && t in s.rows && (token in s.rows ==> s.rows[token].family != s.rows[t].family)
    ensures var s1 := Rotate(s, token, now, expiresAt); t in s1.rows && s1.rows[t] == s.rows[t]
  {
    assert Known(s, t);
  }

  /** Reuse of an exchanged token is noticed exactly while its row is kept: once the cleanup
      has removed the expired row, presenting the token again changes nothing. */
  lemma ReuseNoticed(s: Store, token: Token, now: int, expiresAt: int)
    requires Inv(s) && Spent(s, token)
    ensures token in s.rows ==> Dead(Rotate(s, token, now, expiresAt), s.rows[token].family)
    ensures token !in s.rows ==> Rotate(s, token, now, expiresAt) == s
  {
    assert Known(s, token);
  }

  // ------------------------------------------------------------------ the history of a token

  datatype Cause = Removal | Use | Revocation

  /** What a call does to one row: the cleanup drops it once expired; presenting a usable
      token in time uses it; a logout of its user, and a used token of its family presented
      again, revoke it. */
  predicate Does(s: Store, e: Event, t: Token, cause: Cause) {
    && t in s.rows
    && match cause
       case Removal => e.call.CleanupCall? && s.rows[t].expiresAt < e.now
       case Use => e.call.RotateCall? && e.call.token == t && Usable(s, t) && e.now <= s.rows[t].expiresAt
       case Revocation =>
         || e.call == LogoutCall(s.rows[t].user)
         || (e.call.RotateCall? && OfFamily(s, e.call.token, s.rows[t].family) && s.rows[e.call.token].isUsed)
  }

  ghost predicate Sometime(s: Store, events: seq<Event>, t: Token, cause: Cause)
    decreases |events|
  {
    events != [] && (Does(s, events[0], t, cause) || Sometime(Step(s, events[0]), events[1..], t, cause))
  }

  /** The row of token t as `was` has become of it. */
  predicate Became(was: Row, s: Store, t: Token, used: bool, revoked: bool) {
    t in s.rows && s.rows[t] == was.(isUsed := was.isUsed || used, isRevoked := was.isRevoked || revoked)
  }

  /** One call changes a row by its causes and by nothing else. */
  lemma StepFate(s: Store, e: Event, t: Token)
    requires Inv(s) && t in s.rows
    ensures t !in Step(s, e).rows <==> Does(s, e, t, Removal)
    ensures t in Step(s, e).rows ==> Became(s.rows[t], Step(s, e), t, Does(s, e, t, Use), Does(s, e, t, Revocation))
  {
    assert Known(s, t);
  }

  lemma {:induction false} GoneForever(s: Store, events: seq<Event>, t: Token)
    requires t < s.nextToken && t !in s.rows
    ensures t !in Run(s, events).rows
    decreases |events|
  {
    if events != [] { GoneForever(Step(s, events[0]), events[1..], t); }
  }

  /** Main result: over every run a row keeps its user, family and expiry, is gone iff a
      cleanup found it expired, and, while kept, has been used and revoked iff a call of the
      run did so. */
  lemma {:induction false} RunFate(s: Store, events: seq<Event>, t: Token)
    requires Inv(s) && t in s.rows
    ensures t !in Run(s, events).rows <==> Sometime(s, events, t, Removal)
    ensures t in Run(s, events).rows ==>
              Became(s.rows[t], Run(s, events), t, Sometime(s, events, t, Use), Sometime(s, events, t, Revocation))
    decreases |events|
  {
    if events != [] {
      var s1 := Step(s, events[0]);
      StepKeeps(s, events[0]);
      StepFate(s, events[0], t);
      assert Known(s, t);
      hide Step, Does, Inv;
      if t in s1.rows { RunFate(s1, events[1..], t); } else { Grows(s, events[0]); GoneForever(s1, events[1..], t); }
    }
  }

  lemma Grows(s: Store, e: Event)
    ensures s.nextToken <= Step(s, e).nextToken
  {}

  /** What presenting a token answers is told by its history: exchanged before, revoked
      before, expired, or none of these. */
  lemma OutcomeHistory(s: Store, events: seq<Event>, t: Token, now: int)
    requires Inv(s) && Usable(s, t)
    ensures var outcome := RotateOutcome(Run(s, events), t, now);
            && (outcome.Invalid? <==> Sometime(s, events, t, Removal))
            && (!outcome.Invalid? ==>
                  && (outcome.ReuseDetected? <==> Sometime(s, events, t, Use))
                  && (outcome.Revoked? <==> !Sometime(s, events, t, Use) && Sometime(s, events, t, Revocation))
                  && (outcome.Issued? <==> !Sometime(s, events, t, Use) && !Sometime(s, events, t, Revocation)
                                           && now <= s.rows[t].expiresAt))
  {
    RunFate(s, events, t);
    hide Sometime, Run, Inv;
  }

  // ------------------------------------------------------------------ the service

  class RefreshTokenService {
    var rows: map<Token, Row>
    var nextToken: Token
    var nextFamily: Family

    ghost function State(): Store
      reads this
    {
      Store(rows, nextToken, nextFamily)
    }

    constructor ()
      ensures State() == Store(map[], 0, 0) && Inv(State())
    {
      rows, nextToken, nextFamily := map[], 0, 0;
      new;
      assert Inv(State()) by {
        forall t ensures Known(State(), t) {}
        forall t, u ensures Compatible(State(), t, u) {}
      }
    }

    method Save(user: string, family: Family, expiresAt: int) returns (token: Token)
      modifies this`rows, this`nextToken
      ensures State() == Insert(old(State()), user, family, expiresAt) && token == old(nextToken)
    {
      token := nextToken;
      rows, nextToken := rows[token := Row(user, family, false, false, expiresAt)], nextToken + 1;
    }

    method CreateRefreshToken(user: string, expiresAt: int) returns (token: Token, family: Family)
      modifies this
      ensures State() == Login(old(State()), user, expiresAt)
      ensures OfFamily(State(), token, family) && Usable(State(), token)
    {
      family := nextFamily;
      nextFamily := nextFamily + 1;
      token := Save(user, family, expiresAt);
    }

    method RevokeFamilyRows(family: Family)
      modifies this`rows
      ensures State() == RevokeFamily(old(State()), family)
    {
      rows := map t | t in rows :: if rows[t].family == family then rows[t].(isRevoked := true) else rows[t];
    }

    method RotateRefreshToken(token: Token, now: int, expiresAt: int) returns (outcome: Outcome)
      requires Inv(State())
      modifies this`rows, this`nextToken
      ensures State() == Rotate(old(State()), token, now, expiresAt)
      ensures outcome == RotateOutcome(old(State()), token, now)
      ensures Inv(State())
      ensures outcome.Issued? ==> Usable(State(), outcome.token) && Spent(State(), token)
    {
      StepKeeps(State(), Event(RotateCall(token, expiresAt), now));
      assert Known(State(), token);
      if token !in rows { return Invalid; }
      var existing := rows[token];
      if existing.isUsed {
        RevokeFamilyRows(existing.family);
        return ReuseDetected;
      }
      if existing.isRevoked { return Revoked; }
      if existing.expiresAt < now { return Expired; }
      rows := rows[token := existing.(isUsed := true)];
      var issued := Save(existing.user, existing.family, expiresAt);
      outcome := Issued(issued);
    }

    method RevokeAll(user: string)
      modifies this`rows
      ensures State() == RevokeAllForUser(old(State()), user)
    {
      ghost var before := State();
      rows := map t | t in rows :: if rows[t].user == user && !rows[t].isRevoked then rows[t].(isRevoked := true) else rows[t];
      assert rows == RevokeAllForUser(before, user).rows;
    }

    method Cleanup(now: int)
      modifies this`rows
      ensures State() == CleanupExpired(old(State()), now)
    {
      rows := map t | t in rows && rows[t].expiresAt >= now :: rows[t];
    }
  }
}
