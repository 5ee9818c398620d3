/** Importing the department table: departments are saved in rounds, parents before children,
    and one organisation is cut out as the closure below a root. */
module DepartmentImport {
  import opened Wrappers

  datatype Dept = Dept(id: string, parent: Option<string>, name: string)

  /** A missing parent: null, or the empty string, which is as falsy. */
  predicate NoParent(d: Dept) { d.parent.None? || d.parent.value == "" }

  const TERMINATED_ID := "ae6b09b3-3811-4d6a-af3b-bec84ea87b10"
  const TERMINATED := Dept(TERMINATED_ID, None, "terminated")

  // ------------------------------------------------------------------ saving in rounds

  /** d is the parent-chain child of e. */
  predicate Under(d: Dept, e: Dept) { !NoParent(d) && d.parent.value == e.id }

  /** The parent chain of d inside `all` reaches a department without parent in at most n steps. */
  ghost predicate Within(all: seq<Dept>, d: Dept, n: nat)
    decreases n
  {
    NoParent(d) || (n > 0 && exists e :: e in all && Under(d, e) && Within(all, e, n - 1))
  }

  ghost predicate Rooted(all: seq<Dept>, d: Dept) { exists n: nat :: Within(all, d, n) }

  /** Saved in one of the first k rounds, according to its depth. */
  ghost predicate Before(all: seq<Dept>, d: Dept, k: nat) { k > 0 && Within(all, d, k - 1) }

  lemma {:induction false} WithinGrows(all: seq<Dept>, d: Dept, n: nat, m: nat)
    requires Within(all, d, n) && n <= m
    ensures Within(all, d, m)
    decreases n
  {
    if !NoParent(d) {
      var e :| e in all && Under(d, e) && Within(all, e, n - 1);
      WithinGrows(all, e, n - 1, m - 1);
    }
  }

  /** Once a round finds nothing to save, no later round could. */
  lemma {:induction false} Settled(all: seq<Dept>, k: nat, d: Dept, n: nat)
    requires forall e | e in all && Within(all, e, k) :: Before(all, e, k)
    requires d in all && Within(all, d, n)
    ensures Before(all, d, k)
    decreases n
  {
    if n <= k {
      WithinGrows(all, d, n, k);
    } else if NoParent(d) {
      assert Within(all, d, k);
    } else {
      var e :| e in all && Under(d, e) && Within(all, e, n - 1);
      Settled(all, k, e, n - 1);
      assert Within(all, d, k);
    }
  }

  /** A department is rooted iff its parent id is missing or empty, or is that of a rooted one. */
  lemma RootedExact(all: seq<Dept>, d: Dept)
    ensures Rooted(all, d) <==>
              d.parent == None || d.parent == Some("") || exists e :: e in all && d.parent == Some(e.id) && Rooted(all, e)
  {
    if Rooted(all, d) && !NoParent(d) {
      var n: nat :| Within(all, d, n);
      var e :| e in all && Under(d, e) && Within(all, e, n - 1);
      assert d.parent == Some(e.id) && Rooted(all, e);
    }
    if NoParent(d) { assert Within(all, d, 0); }
    if e :| e in all && d.parent == Some(e.id) && Rooted(all, e) {
      var n: nat :| Within(all, e, n);
      if !NoParent(d) { assert Under(d, e) && Within(all, d, n + 1); }
    }
  }

  predicate Ready(d: Dept, ids: set<string>) { NoParent(d) || d.parent.value in ids }

  method Partition(remaining: seq<Dept>, ids: set<string>) returns (toSave: seq<Dept>, still: seq<Dept>)
    ensures multiset(toSave) + multiset(still) == multiset(remaining)
    ensures forall d | d in toSave :: Ready(d, ids)
    ensures forall d | d in still :: !Ready(d, ids)
  {
    toSave, still := [], [];
    for i := 0 to |remaining|
      invariant multiset(toSave) + multiset(still) == multiset(remaining[..i])
      invariant forall d | d in toSave :: Ready(d, ids)
      invariant forall d | d in still :: !Ready(d, ids)
    {
      assert remaining[..i + 1] == remaining[..i] + [remaining[i]];
      if Ready(remaining[i], ids) { toSave := toSave + [remaining[i]]; } else { still := still + [remaining[i]]; }
    }
    assert remaining[..|remaining|] == remaining;
  }

  /** A department saved before place i, in an earlier round, is the parent of the one at i. */
  ghost predicate ParentSaved(saved: seq<Dept>, rounds: seq<nat>, i: nat)
    requires |rounds| == |saved| && i < |saved|
  {
    NoParent(saved[i]) || exists j :: 0 <= j < i && Under(saved[i], saved[j]) && rounds[j] < rounds[i]
  }

  /** The round equals the depth: reached with so many steps and with no fewer. */
  ghost predicate InRound(all: seq<Dept>, d: Dept, r: nat) {
    Before(all, d, r) && !Before(all, d, r - 1)
  }

  ghost predicate IdsOf(saved: seq<Dept>, ids: set<string>) {
    && (forall d | d in saved :: d.id in ids)
    && (forall id | id in ids :: exists d :: d in saved && d.id == id)
  }

  /** What holds after k rounds. */
  ghost predicate Progress(all: seq<Dept>, saved: seq<Dept>, remaining: seq<Dept>, ids: set<string>, k: nat) {
    && multiset(saved) + multiset(remaining) == multiset(all)
    && (forall d | d in saved :: Before(all, d, k))
    && (forall d | d in remaining :: !Before(all, d, k))
    && IdsOf(saved, ids)
  }

  lemma Split(all: seq<Dept>, a: seq<Dept>, b: seq<Dept>, d: Dept)
    requires multiset(a) + multiset(b) == multiset(all)
    ensures d in all <==> d in a || d in b
    ensures |a| + |b| == |all|
  {
    assert d in multiset(all) <==> d in multiset(a) || d in multiset(b);
    assert |multiset(all)| == |multiset(a)| + |multiset(b)|;
  }

  /** A remaining department is ready in round k + 1 exactly when its depth is k. */
  lemma ReadyIsDepth(all: seq<Dept>, saved: seq<Dept>, remaining: seq<Dept>, ids: set<string>, k: nat, d: Dept)
    requires Progress(all, saved, remaining, ids, k)
    ensures Ready(d, ids) <==> Within(all, d, k)
  {
    if !NoParent(d) {
      if Ready(d, ids) {
        var e :| e in saved && e.id == d.parent.value;
        Split(all, saved, remaining, e);
        assert Under(d, e) && Within(all, e, k - 1);
      }
      if Within(all, d, k) {
        var e :| e in all && Under(d, e) && Within(all, e, k - 1);
        Split(all, saved, remaining, e);
        assert e in saved;
      }
    }
  }

  lemma NextRound(all: seq<Dept>, saved: seq<Dept>, remaining: seq<Dept>, ids: set<string>, k: nat, toSave: seq<Dept>, still: seq<Dept>, ids': set<string>)
    requires Progress(all, saved, remaining, ids, k)
    requires multiset(toSave) + multiset(still) == multiset(remaining)
    requires forall d | d in toSave :: Ready(d, ids)
    requires forall d | d in still :: !Ready(d, ids)
    requires IdsOf(saved + toSave, ids')
    ensures Progress(all, saved + toSave, still, ids', k + 1)
    ensures forall d | d in toSave :: InRound(all, d, k + 1)
  {
    forall d | d in toSave ensures InRound(all, d, k + 1) {
      ReadyIsDepth(all, saved, remaining, ids, k, d);
      Split(remaining, toSave, still, d);
    }
    forall d | d in saved ensures Before(all, d, k + 1) { WithinGrows(all, d, k - 1, k); }
    forall d | d in still ensures !Before(all, d, k + 1) { ReadyIsDepth(all, saved, remaining, ids, k, d); }
  }

  method SaveRound(saved: seq<Dept>, toSave: seq<Dept>, ids: set<string>) returns (saved': seq<Dept>, ids': set<string>)
    requires IdsOf(saved, ids)
    ensures saved' == saved + toSave && IdsOf(saved', ids')
  {
    saved', ids' := saved, ids;
    for i := 0 to |toSave|
      invariant saved' == saved + toSave[..i] && IdsOf(saved', ids')
    {
      ghost var before := saved';
      saved', ids' := saved' + [toSave[i]], ids' + {toSave[i].id};
      assert forall d :: d in saved' <==> d in before || d == toSave[i];
    }
  }

  /** Every saved department was saved in the round of its depth, and after its parent. */
  ghost predicate Ordered(all: seq<Dept>, saved: seq<Dept>, rounds: seq<nat>, k: nat) {
    && |rounds| == |saved|
    && (forall i | 0 <= i < |saved| :: InRound(all, saved[i], rounds[i]) && rounds[i] <= k)
    && (forall i | 0 <= i < |saved| :: ParentSaved(saved, rounds, i))
  }

  lemma RoundOrdered(all: seq<Dept>, saved: seq<Dept>, rounds: seq<nat>, toSave: seq<Dept>, ids: set<string>, k: nat, saved': seq<Dept>, rounds': seq<nat>)
    requires Ordered(all, saved, rounds, k) && IdsOf(saved, ids)
    requires forall d | d in toSave :: Ready(d, ids) && InRound(all, d, k + 1)
    requires saved' == saved + toSave && rounds' == rounds + seq(|toSave|, _ => k + 1)
    ensures Ordered(all, saved', rounds', k + 1)
  {
    forall i | 0 <= i < |saved'| ensures InRound(all, saved'[i], rounds'[i]) && rounds'[i] <= k + 1 {
      if i < |saved| {
        assert InRound(all, saved[i], rounds[i]) && saved'[i] == saved[i] && rounds'[i] == rounds[i];
      } else {
        assert saved'[i] == toSave[i - |saved|] && saved'[i] in toSave;
      }
    }
    forall i | 0 <= i < |saved'| ensures ParentSaved(saved', rounds', i) {
      if i < |saved| {
        assert ParentSaved(saved, rounds, i);
        if !NoParent(saved[i]) {
          var j :| 0 <= j < i && Under(saved[i], saved[j]) && rounds[j] < rounds[i];
          assert Under(saved'[i], saved'[j]) && rounds'[j] < rounds'[i];
        }
      } else {
        var d := toSave[i - |saved|];
        assert saved'[i] == d && d in toSave;
        if !NoParent(d) {
          var e :| e in saved && e.id == d.parent.value;
          var j :| 0 <= j < |saved| && saved[j] == e;
          assert rounds[j] <= k;
          assert Under(saved'[i], saved'[j]) && rounds'[j] < rounds'[i];
        }
      }
    }
  }

  lemma NothingReady(all: seq<Dept>, saved: seq<Dept>, remaining: seq<Dept>, ids: set<string>, k: nat)
    requires Progress(all, saved, remaining, ids, k)
    requires forall d | d in remaining :: !Ready(d, ids)
    ensures forall d | d in remaining :: !Rooted(all, d)
  {
    forall e | e in all && Within(all, e, k) ensures Before(all, e, k) {
      Split(all, saved, remaining, e);
      ReadyIsDepth(all, saved, remaining, ids, k, e);
    }
    forall d, n: nat | d in remaining ensures !Within(all, d, n) {
      Split(all, saved, remaining, d);
      if Within(all, d, n) { Settled(all, k, d, n); }
    }
  }

  /** Main result: what is saved is exactly what has a parent chain to a department without
      parent, each row once, in the round of its depth and after its parent; the iteration
      bound never leaves anything out. */
  method MigrateDepartments(departments: seq<Dept>) returns (saved: seq<Dept>, left: seq<Dept>, ghost rounds: seq<nat>)
    ensures multiset(saved) + multiset(left) == multiset([TERMINATED] + departments)
    ensures forall d | d in saved :: Rooted([TERMINATED] + departments, d)
    ensures forall d | d in left :: !Rooted([TERMINATED] + departments, d)
    ensures forall i | 0 <= i < |saved| && !NoParent(saved[i]) :: exists j :: 0 <= j < i && Under(saved[i], saved[j])
    ensures |rounds| == |saved| && Ordered([TERMINATED] + departments, saved, rounds, |saved|)
  {
    ghost var all := [TERMINATED] + departments;
    var remaining, savedIds, iterations := [TERMINATED] + departments, {}, 0;
    var maxIterations := |departments| + 1;
    saved, rounds := [], [];
    while |remaining| > 0 && iterations < maxIterations
      invariant Progress(all, saved, remaining, savedIds, iterations)
      invariant Ordered(all, saved, rounds, iterations) && iterations <= |saved|
      decreases maxIterations - iterations
    {
      var toSave, still := Partition(remaining, savedIds);
      var saved', ids' := SaveRound(saved, toSave, savedIds);
      NextRound(all, saved, remaining, savedIds, iterations, toSave, still, ids');
      if toSave == [] {
        SameLeft(remaining, still);
        NothingReady(all, saved, remaining, savedIds, iterations);
        break;
      }
      ghost var rounds' := rounds + seq(|toSave|, _ => iterations + 1);
      RoundOrdered(all, saved, rounds, toSave, savedIds, iterations, saved', rounds');
      saved, rounds, savedIds, remaining, iterations := saved', rounds', ids', still, iterations + 1;
    }
    left := remaining;
    SavedRooted(all, saved, left, savedIds, iterations);
    forall i | 0 <= i < |saved| && !NoParent(saved[i]) ensures exists j :: 0 <= j < i && Under(saved[i], saved[j]) {
      assert ParentSaved(saved, rounds, i);
    }
  }

  lemma SameLeft(a: seq<Dept>, b: seq<Dept>)
    requires multiset([]) + multiset(b) == multiset(a)
    ensures forall d | d in a :: d in b
  {
    assert forall d :: d in a <==> d in multiset(a);
    assert forall d :: d in b <==> d in multiset(b);
  }

  lemma SavedRooted(all: seq<Dept>, saved: seq<Dept>, left: seq<Dept>, ids: set<string>, k: nat)
    requires Progress(all, saved, left, ids, k)
    ensures forall d | d in saved :: Rooted(all, d)
    ensures |saved| + |left| == |all|
  {
    forall d | d in saved ensures Rooted(all, d) { assert Within(all, d, k - 1); }
    assert |multiset(all)| == |multiset(saved)| + |multiset(left)|;
  }
}
