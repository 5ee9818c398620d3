/** Cutting one organisation out of the exported departments, and what the import then saves. */
module DepartmentClosure {
  import opened Wrappers
  import opened DepartmentImport

  /** id is root, or lies n parent links below it in the list. */
  ghost predicate Below(list: seq<Dept>, root: string, id: string, n: nat)
    decreases n
  {
    if n == 0 then id == root
    else exists d :: d in list && d.id == id && !NoParent(d) && Below(list, root, d.parent.value, n - 1)
  }

  ghost predicate Descendant(list: seq<Dept>, root: string, id: string) {
    exists n: nat :: Below(list, root, id, n)
  }

  ghost predicate Closed(list: seq<Dept>, ids: set<string>) {
    forall d | d in list && !NoParent(d) && d.parent.value in ids :: d.id in ids
  }

  lemma {:induction false} ClosedHolds(list: seq<Dept>, root: string, ids: set<string>, id: string, n: nat)
    requires root in ids && Closed(list, ids) && Below(list, root, id, n)
    ensures id in ids
    decreases n
  {
    if n > 0 {
      var d :| d in list && d.id == id && !NoParent(d) && Below(list, root, d.parent.value, n - 1);
      ClosedHolds(list, root, ids, d.parent.value, n - 1);
    }
  }

  lemma StepDown(list: seq<Dept>, root: string, d: Dept)
    requires d in list && !NoParent(d) && Descendant(list, root, d.parent.value)
    ensures Descendant(list, root, d.id)
  {
    var n: nat :| Below(list, root, d.parent.value, n);
    assert Below(list, root, d.id, n + 1);
  }

  function AllIds(list: seq<Dept>): (ids: set<string>)
    ensures forall d | d in list :: d.id in ids
  {
    set d | d in list :: d.id
  }

  /** The fixpoint loop stops, and has collected the root and everything below it, no more. */
  method CollectDescendants(root: string, departments: seq<Dept>) returns (result: set<string>)
    ensures forall id :: id in result <==> Descendant(departments, root, id)
  {
    result := {root};
    assert Below(departments, root, root, 0);
    var changed := true;
    ghost var universe := AllIds(departments) + {root};
    while changed
      invariant root in result && result <= universe
      invariant forall id | id in result :: Descendant(departments, root, id)
      invariant !changed ==> Closed(departments, result)
      decreases universe - result, changed
    {
      changed := false;
      ghost var start := result;
      for i := 0 to |departments|
        invariant start <= result <= universe
        invariant forall id | id in result :: Descendant(departments, root, id)
        invariant changed <==> result != start
        invariant !changed ==> forall d | d in departments[..i] && !NoParent(d) && d.parent.value in result :: d.id in result
      {
        var dept := departments[i];
        if !NoParent(dept) && dept.parent.value in result && dept.id !in result {
          StepDown(departments, root, dept);
          result := result + {dept.id};
          changed := true;
        }
      }
      assert departments[..|departments|] == departments;
      assert universe - result <= universe - start;
      if changed {
        ghost var id :| id in result && id !in start;
        assert id in universe - start && id !in universe - result;
      }
    }
    forall id ensures id in result <==> Descendant(departments, root, id) {
      if Descendant(departments, root, id) {
        var n: nat :| Below(departments, root, id, n);
        ClosedHolds(departments, root, result, id, n);
      }
    }
  }

  // ------------------------------------------------------------------ then saving them

  predicate UniqueIds(list: seq<Dept>) {
    forall i, j :: 0 <= i < j < |list| ==> list[i].id != list[j].id
  }

  function Filtered(list: seq<Dept>, ids: set<string>): (r: seq<Dept>)
    ensures forall d :: d in r <==> d in list && d.id in ids
  {
    if list == [] then []
    else (if list[0].id in ids then [list[0]] else []) + Filtered(list[1..], ids)
  }

  ghost predicate IsClosure(list: seq<Dept>, root: string, ids: set<string>) {
    forall id :: id in ids <==> Descendant(list, root, id)
  }

  /** A collected department other than the root hangs below a collected one. */
  lemma ParentCollected(list: seq<Dept>, root: Dept, ids: set<string>, d: Dept)
    requires UniqueIds(list) && IsClosure(list, root.id, ids)
    requires root in list && d in list && d.id in ids && d != root
    ensures !NoParent(d) && d.parent.value in ids
  {
    assert Descendant(list, root.id, d.id);
    var n: nat :| Below(list, root.id, d.id, n);
    if n == 0 {
      OneRow(list, d, root);
    } else {
      var e :| e in list && e.id == d.id && !NoParent(e) && Below(list, root.id, e.parent.value, n - 1);
      OneRow(list, d, e);
      assert Descendant(list, root.id, d.parent.value);
    }
  }

  lemma OneRow(list: seq<Dept>, a: Dept, b: Dept)
    requires UniqueIds(list) && a in list && b in list && a.id == b.id
    ensures a == b
  {
    var i :| 0 <= i < |list| && list[i] == a;
    var j :| 0 <= j < |list| && list[j] == b;
    assert i == j;
  }

  ghost predicate Part(f: seq<Dept>, list: seq<Dept>) { forall d | d in f :: d in list }

  /** The link above a department that lies n links below the top. */
  lemma LinkUp(list: seq<Dept>, f: seq<Dept>, top: string, d: Dept, n: nat)
    requires UniqueIds(list) && Part(f, list) && d in list && n > 0 && Below(f, top, d.id, n)
    ensures !NoParent(d) && Below(f, top, d.parent.value, n - 1)
  {
    var e :| e in f && e.id == d.id && !NoParent(e) && Below(f, top, e.parent.value, n - 1);
    OneRow(list, d, e);
  }

  lemma RowBelow(f: seq<Dept>, top: string, id: string, n: nat) returns (p: Dept)
    requires n > 0 && Below(f, top, id, n)
    ensures p in f && p.id == id
  {
    p :| p in f && p.id == id && !NoParent(p) && Below(f, top, p.parent.value, n - 1);
  }

  /** The row above a collected department, one link nearer to the root. */
  lemma ParentRow(list: seq<Dept>, root: Dept, ids: set<string>, d: Dept, n: nat) returns (p: Dept)
    requires UniqueIds(list) && IsClosure(list, root.id, ids)
    requires root in list && d in list && n > 0 && Below(list, root.id, d.id, n)
    ensures p in list && p.id in ids && Under(d, p) && Below(list, root.id, p.id, n - 1)
  {
    LinkUp(list, list, root.id, d, n);
    assert Descendant(list, root.id, d.parent.value);
    if n == 1 { p := root; } else { p := RowBelow(list, root.id, d.parent.value, n - 1); }
  }

  /** If the root can be saved, so can everything collected. */
  lemma {:induction false} RootCarries(list: seq<Dept>, root: Dept, ids: set<string>, all: seq<Dept>, d: Dept, n: nat)
    requires UniqueIds(list) && IsClosure(list, root.id, ids)
    requires root in list && d in list && d.id in ids && Below(list, root.id, d.id, n)
    requires (forall x | x in list && x.id in ids :: x in all) && Rooted(all, root)
    ensures Rooted(all, d)
    decreases n
  {
    hide IsClosure, Rooted;
    if n == 0 {
      OneRow(list, d, root);
    } else {
      var p := ParentRow(list, root, ids, d, n);
      RootCarries(list, root, ids, all, p, n - 1);
      RootedUnder(all, d, p);
    }
  }

  lemma RootedUnder(all: seq<Dept>, d: Dept, p: Dept)
    requires p in all && Under(d, p) && Rooted(all, p)
    ensures Rooted(all, d)
  {
    var n: nat :| Within(all, p, n);
    assert Within(all, d, n + 1);
  }

  /** A chain below the added department can be saved. */
  lemma {:induction false} BelowTerminatedRooted(list: seq<Dept>, f: seq<Dept>, d: Dept, n: nat)
    requires UniqueIds(list) && Part(f, list) && d in f && n > 0 && Below(f, TERMINATED_ID, d.id, n)
    ensures Rooted([TERMINATED] + f, d)
    decreases n
  {
    LinkUp(list, f, TERMINATED_ID, d, n);
    if n == 1 {
      assert Within([TERMINATED] + f, TERMINATED, 0);
      RootedUnder([TERMINATED] + f, d, TERMINATED);
    } else {
      var p := RowBelow(f, TERMINATED_ID, d.parent.value, n - 1);
      BelowTerminatedRooted(list, f, p, n - 1);
      RootedUnder([TERMINATED] + f, d, p);
    }
  }

  /** A collected department that can be saved although the root has a parent hangs, within
      the collected ones, below the added department. */
  lemma {:induction false} RootedBelowTerminated(list: seq<Dept>, root: Dept, ids: set<string>, d: Dept, n: nat)
    requires UniqueIds(list) && IsClosure(list, root.id, ids) && root in list && !NoParent(root)
    requires d in Filtered(list, ids) && Within([TERMINATED] + Filtered(list, ids), d, n)
    ensures Descendant(Filtered(list, ids), TERMINATED_ID, d.id)
    decreases n
  {
    var all, f := [TERMINATED] + Filtered(list, ids), Filtered(list, ids);
    if d != root { ParentCollected(list, root, ids, d); }
    var e :| e in all && Under(d, e) && Within(all, e, n - 1);
    if e == TERMINATED {
      assert Below(f, TERMINATED_ID, TERMINATED_ID, 0);
    } else {
      RootedBelowTerminated(list, root, ids, e, n - 1);
    }
    StepDown(f, TERMINATED_ID, d);
  }

  /** Whether the root of the cut can be saved: it has no parent, or its parent is the added
      department, or its parent was itself collected (so the data has a parent cycle) and
      hangs below a row that carries the added department's id. */
  ghost predicate RootSavable(list: seq<Dept>, root: Dept, ids: set<string>) {
    || NoParent(root)
    || root.parent.value == TERMINATED_ID
    || (root.parent.value in ids && Descendant(Filtered(list, ids), TERMINATED_ID, root.parent.value))
  }

  /** Main result of the composition: with the root in the list, all collected departments
      are saved iff the root can be. */
  lemma CutSavedExact(list: seq<Dept>, root: Dept, ids: set<string>)
    requires UniqueIds(list) && root in list && IsClosure(list, root.id, ids)
    ensures (forall d | d in list && d.id in ids :: Rooted([TERMINATED] + Filtered(list, ids), d)) <==> RootSavable(list, root, ids)
  {
    var all, f := [TERMINATED] + Filtered(list, ids), Filtered(list, ids);
    assert Below(list, root.id, root.id, 0);
    assert root in f;
    if Rooted(all, root) && !NoParent(root) && root.parent.value != TERMINATED_ID {
      var n: nat :| Within(all, root, n);
      var e :| e in all && Under(root, e) && Within(all, e, n - 1);
      RootedBelowTerminated(list, root, ids, e, n - 1);
    }
    if RootSavable(list, root, ids) {
      RootIsRooted(list, root, ids);
      forall d | d in list && d.id in ids ensures Rooted(all, d) {
        assert Descendant(list, root.id, d.id);
        var n: nat :| Below(list, root.id, d.id, n);
        RootCarries(list, root, ids, all, d, n);
      }
    }
  }

  lemma RootIsRooted(list: seq<Dept>, root: Dept, ids: set<string>)
    requires UniqueIds(list) && root in Filtered(list, ids) && RootSavable(list, root, ids)
    ensures Rooted([TERMINATED] + Filtered(list, ids), root)
  {
    var all, f := [TERMINATED] + Filtered(list, ids), Filtered(list, ids);
    if NoParent(root) {
      assert Within(all, root, 0);
    } else if root.parent.value == TERMINATED_ID {
      assert Within(all, TERMINATED, 0);
      RootedUnder(all, root, TERMINATED);
    } else {
      var n: nat :| Below(f, TERMINATED_ID, root.parent.value, n);
      assert Below(f, TERMINATED_ID, root.id, n + 1);
      BelowTerminatedRooted(list, f, root, n + 1);
    }
  }

  /** When no exported row carries the added department's id, that leaves the plain condition:
      the root has no parent, or the added department as parent. */
  lemma PlainCut(list: seq<Dept>, root: Dept, ids: set<string>)
    requires UniqueIds(list) && root in list && IsClosure(list, root.id, ids)
    requires forall d | d in list :: d.id != TERMINATED_ID
    ensures RootSavable(list, root, ids) <==> NoParent(root) || root.parent.value == TERMINATED_ID
  {
    if !NoParent(root) && root.parent.value != TERMINATED_ID && root.parent.value in ids {
      forall n: nat ensures !Below(Filtered(list, ids), TERMINATED_ID, root.parent.value, n) {
        NoneBelow(list, root, ids, Filtered(list, ids), root.parent.value, n);
      }
    }
  }

  /** Then no collected department hangs directly below the added one. */
  lemma ParentElsewhere(list: seq<Dept>, root: Dept, ids: set<string>, d: Dept)
    requires UniqueIds(list) && root in list && IsClosure(list, root.id, ids)
    requires forall d | d in list :: d.id != TERMINATED_ID
    requires !NoParent(root) && root.parent.value != TERMINATED_ID && d in list && d.id in ids && !NoParent(d)
    ensures d.parent.value != TERMINATED_ID
  {
    if d != root {
      ParentCollected(list, root, ids, d);
      IdOfRow(list, root, ids, d.parent.value);
    }
  }

  lemma NoLink(f: seq<Dept>, top: string, id: string, n: nat)
    requires id != top
    requires n > 0 ==> forall d | d in f && d.id == id && !NoParent(d) :: !Below(f, top, d.parent.value, n - 1)
    ensures !Below(f, top, id, n)
  {}

  lemma {:induction false} NoneBelow(list: seq<Dept>, root: Dept, ids: set<string>, f: seq<Dept>, id: string, n: nat)
    requires UniqueIds(list) && root in list && IsClosure(list, root.id, ids)
    requires forall d | d in list :: d.id != TERMINATED_ID
    requires !NoParent(root) && root.parent.value != TERMINATED_ID && id != TERMINATED_ID
    requires forall d | d in f :: d in list && d.id in ids
    ensures !Below(f, TERMINATED_ID, id, n)
    decreases n
  {
    hide Below, IsClosure, UniqueIds;
    if n > 0 {
      forall d | d in f && d.id == id && !NoParent(d) ensures !Below(f, TERMINATED_ID, d.parent.value, n - 1) {
        ParentElsewhere(list, root, ids, d);
        NoneBelow(list, root, ids, f, d.parent.value, n - 1);
      }
    }
    NoLink(f, TERMINATED_ID, id, n);
  }

  /** A collected id is the id of a row. */
  lemma IdOfRow(list: seq<Dept>, root: Dept, ids: set<string>, id: string)
    requires root in list && IsClosure(list, root.id, ids) && id in ids
    ensures exists d :: d in list && d.id == id
  {
    assert Descendant(list, root.id, id);
    var n: nat :| Below(list, root.id, id, n);
    assert n == 0 ==> root.id == id;
  }
}
