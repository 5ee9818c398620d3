/** The department hierarchy as it is built: children lists pushed to and sorted in place. */
module DepartmentHierarchy {
  import opened Wrappers
  import opened DepartmentForest

  /** A children list is the child rows, in list order or sorted. */
  predicate Stored(rows: seq<Row>, kids: map<string, seq<Row>>, id: string) {
    id in kids && (kids[id] == KidsOf(rows, id) || kids[id] == SortRows(KidsOf(rows, id)))
  }

  predicate Sorted(rows: seq<Row>, kids: map<string, seq<Row>>, id: string) {
    id in kids && kids[id] == SortRows(KidsOf(rows, id))
  }

  ghost predicate AllStored(rows: seq<Row>, kids: map<string, seq<Row>>) {
    forall r {:trigger Stored(rows, kids, r.id)} | r in rows :: Stored(rows, kids, r.id)
  }

  lemma StoredOk(rows: seq<Row>, kids: map<string, seq<Row>>)
    requires AllStored(rows, kids)
    ensures KidsOk(rows, kids)
  {
    forall r | r in rows ensures ListOk(rows, kids, r.id) {
      assert Stored(rows, kids, r.id);
      SortSorts(KidsOf(rows, r.id));
    }
  }

  /** What was sorted stays sorted. */
  ghost predicate StaysSorted(rows: seq<Row>, kids: map<string, seq<Row>>, kids': map<string, seq<Row>>) {
    forall r {:trigger Sorted(rows, kids', r.id)} | r in rows && Sorted(rows, kids, r.id) :: Sorted(rows, kids', r.id)
  }

  /** Everything at or below node a is sorted. */
  ghost predicate SortedBelow(rows: seq<Row>, kids: map<string, seq<Row>>, a: Row) {
    forall x, i: nat {:trigger Up(rows, x, i)} | x in rows && Up(rows, x, i) == Some(a) :: Sorted(rows, kids, x.id)
  }

  lemma BelowStays(rows: seq<Row>, kids: map<string, seq<Row>>, kids': map<string, seq<Row>>, a: Row)
    requires StaysSorted(rows, kids, kids') && SortedBelow(rows, kids, a)
    ensures SortedBelow(rows, kids', a)
  {
    forall x, i: nat | x in rows && Up(rows, x, i) == Some(a) ensures Sorted(rows, kids', x.id) {
      assert Sorted(rows, kids, x.id);
    }
  }

  lemma {:induction false} UpFromParent(rows: seq<Row>, x: Row, p: Row, i: nat)
    requires x in rows && p in rows && Up(rows, x, 1) == Some(p)
    ensures Up(rows, x, i + 1) == Up(rows, p, i)
  {
    if i > 0 { UpFromParent(rows, x, p, i - 1); }
  }

  lemma ParentIs(rows: seq<Row>, x: Row, p: Row)
    requires UniqueIds(rows) && x in rows && p in rows && ChildOf(x, p.id)
    ensures Up(rows, x, 1) == Some(p)
  {
    assert Up(rows, x, 0) == Some(x);
    assert p.id in IdSet(rows);
    var found := Lookup(rows, p.id);
    assert found.Some?;
    OneRow(rows, found.value, p);
  }

  /** A row in the children list of a node is one level deeper. */
  lemma ChildDeeper(rows: seq<Row>, p: Row, x: Row, depth: nat)
    requires UniqueIds(rows) && p in rows && EndsAt(rows, p, depth) && x in KidsOf(rows, p.id)
    ensures x in rows && EndsAt(rows, x, depth + 1) && depth + 1 < |rows|
  {
    KidsMembers(rows, p.id);
    ParentIs(rows, x, p);
    UpFromParent(rows, x, p, depth);
    ChainShort(rows, x, depth + 1);
  }

  lemma ChildOnTheWay(rows: seq<Row>, x: Row, a: Row, i: nat) returns (c: Row)
    requires UniqueIds(rows) && x in rows && a in rows && Up(rows, x, i + 1) == Some(a)
    ensures Up(rows, x, i) == Some(c) && c in KidsOf(rows, a.id)
  {
    HitShift(rows, x, a, KidsOf(rows, a.id), i);
    assert Hit(rows, x, [a], i + 1) == 1;
    c := Up(rows, x, i).value;
  }

  /** Below a node lie the node itself and what lies below its children. */
  lemma BelowNode(rows: seq<Row>, kids: map<string, seq<Row>>, a: Row)
    requires UniqueIds(rows) && a in rows && Sorted(rows, kids, a.id)
    requires forall c | c in KidsOf(rows, a.id) :: SortedBelow(rows, kids, c)
    ensures SortedBelow(rows, kids, a)
  {
    forall x, i: nat | x in rows && Up(rows, x, i) == Some(a) ensures Sorted(rows, kids, x.id) {
      if i > 0 {
        var c := ChildOnTheWay(rows, x, a, i - 1);
        assert SortedBelow(rows, kids, c);
      }
    }
  }

  lemma StoreSorted(rows: seq<Row>, kids: map<string, seq<Row>>, id: string, list: seq<Row>)
    requires AllStored(rows, kids) && id in kids && list == SortRows(KidsOf(rows, id))
    ensures var kids' := kids[id := list];
            AllStored(rows, kids') && StaysSorted(rows, kids, kids') && Sorted(rows, kids', id)
  {
    var kids' := kids[id := list];
    forall r | r in rows ensures Stored(rows, kids', r.id) { assert Stored(rows, kids, r.id); }
    forall r | r in rows && Sorted(rows, kids, r.id) ensures Sorted(rows, kids', r.id) {}
  }

  lemma RootsEnd(rows: seq<Row>)
    ensures forall r | r in RootsOf(rows, IdSet(rows)) :: r in rows && EndsAt(rows, r, 0)
  {
    RootsMembers(rows, IdSet(rows));
    forall r | r in RootsOf(rows, IdSet(rows)) ensures r in rows && EndsAt(rows, r, 0) {
      assert Up(rows, r, 0) == Some(r);
    }
  }

  lemma EndsBelowRoots(rows: seq<Row>, kids: map<string, seq<Row>>, x: Row)
    requires forall r | r in RootsOf(rows, IdSet(rows)) :: SortedBelow(rows, kids, r)
    requires Ends(rows, x)
    ensures Sorted(rows, kids, x.id)
  {
    var m: nat :| EndsAt(rows, x, m);
    RootsMembers(rows, IdSet(rows));
    var top := Up(rows, x, m).value;
    assert top in RootsOf(rows, IdSet(rows));
  }

  /** What a node's stored list tells: its members stand one level deeper, and sorting it
      gives the sorted child rows. */
  lemma NodeList(rows: seq<Row>, kids: map<string, seq<Row>>, node: Row, depth: nat)
    requires UniqueIds(rows) && AllStored(rows, kids) && node in rows && EndsAt(rows, node, depth)
    ensures node.id in kids && SortRows(kids[node.id]) == SortRows(KidsOf(rows, node.id))
    ensures forall r :: r in kids[node.id] <==> r in KidsOf(rows, node.id)
    ensures forall r | r in kids[node.id] :: r in rows && EndsAt(rows, r, depth + 1)
    ensures depth < |rows|
    ensures kids[node.id] == [] ==> Sorted(rows, kids, node.id)
  {
    assert Stored(rows, kids, node.id);
    var list := KidsOf(rows, node.id);
    SortSorts(list);
    SortedStays(SortRows(list));
    SameMembers(kids[node.id], list);
    ChainShort(rows, node, depth);
    forall r | r in kids[node.id] ensures r in rows && EndsAt(rows, r, depth + 1) { ChildDeeper(rows, node, r, depth); }
  }

  class Hierarchy {
    var children: map<string, seq<Row>>

    constructor ()
      ensures children == map[]
    { children := map[]; }

    /** Terminates on any list whose rows stand at one depth above the end of their parent
        chains, whatever cycles the other rows form. */
    method SortChildrenRecursive(nodes: seq<Row>, ghost rows: seq<Row>, ghost depth: nat) returns (sorted: seq<Row>)
      requires UniqueIds(rows) && AllStored(rows, children)
      requires forall r | r in nodes :: r in rows && EndsAt(rows, r, depth)
      requires depth <= |rows|
      modifies this
      ensures AllStored(rows, children) && StaysSorted(rows, old(children), children)
      ensures children.Keys == old(children.Keys)
      ensures sorted == SortRows(nodes)
      ensures forall r | r in nodes :: SortedBelow(rows, children, r)
      decreases |rows| - depth
    {
      sorted := SortRows(nodes);
      SortSorts(nodes);
      SameMembers(sorted, nodes);
      for i := 0 to |sorted|
        invariant AllStored(rows, children) && StaysSorted(rows, old(children), children)
        invariant children.Keys == old(children.Keys)
        invariant forall r | r in sorted[..i] :: SortedBelow(rows, children, r)
      {
        ghost var before := children;
        SortOne(sorted[i], rows, depth);
        forall r | r in sorted[..i + 1] ensures SortedBelow(rows, children, r) {
          if r in sorted[..i] { BelowStays(rows, before, children, r); }
        }
      }
      assert sorted[..|sorted|] == sorted;
    }

    method SortOne(node: Row, ghost rows: seq<Row>, ghost depth: nat)
      requires UniqueIds(rows) && AllStored(rows, children)
      requires node in rows && EndsAt(rows, node, depth) && depth <= |rows|
      modifies this
      ensures AllStored(rows, children) && StaysSorted(rows, old(children), children)
      ensures children.Keys == old(children.Keys)
      ensures SortedBelow(rows, children, node)
      decreases |rows| - depth, 0
    {
      NodeList(rows, children, node, depth);
      if |children[node.id]| > 0 {
        var list := SortChildrenRecursive(children[node.id], rows, depth + 1);
        StoreSorted(rows, children, node.id, list);
        ghost var inner := children;
        children := children[node.id := list];
        forall c | c in KidsOf(rows, node.id) ensures SortedBelow(rows, children, c) { BelowStays(rows, inner, children, c); }
      }
      BelowNode(rows, children, node);
    }

    /** Main result: the returned forest shows each row whose parent chain ends exactly once,
        below its own parent, every list in ascending order. */
    method BuildHierarchy(rows: seq<Row>) returns (roots: seq<Row>)
      requires UniqueIds(rows)
      modifies this
      ensures roots == SortRows(RootsOf(rows, IdSet(rows)))
      ensures forall r | r in rows && Ends(rows, r) :: Sorted(rows, children, r.id)
      ensures KidsOk(rows, children)
      ensures forall x | x in rows :: Shown(children, roots, |rows|, x) == if Ends(rows, x) then 1 else 0
    {
      children := map id | id in IdSet(rows) :: [];
      roots := [];
      for i := 0 to |rows|
        invariant children.Keys == IdSet(rows)
        invariant forall id | id in children :: children[id] == KidsOf(rows[..i], id)
        invariant roots == RootsOf(rows[..i], IdSet(rows))
      {
        assert rows[..i + 1][..i] == rows[..i];
        var row := rows[i];
        if row.parent.Some? && row.parent.value != "" && row.parent.value in children {
          children := children[row.parent.value := children[row.parent.value] + [row]];
        } else {
          roots := roots + [row];
        }
      }
      assert rows[..|rows|] == rows;
      forall r | r in rows ensures Stored(rows, children, r.id) {}
      RootsEnd(rows);
      SortSorts(roots);
      roots := SortChildrenRecursive(roots, rows, 0);
      StoredOk(rows, children);
      forall r | r in rows && Ends(rows, r) ensures Sorted(rows, children, r.id) { EndsBelowRoots(rows, children, r); }
      forall x | x in rows ensures Shown(children, roots, |rows|, x) == if Ends(rows, x) then 1 else 0 {
        ForestExact(rows, children, roots, |rows|, x);
      }
    }
  }
}
