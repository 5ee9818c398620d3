/** From the flat department list to the sorted hierarchy. A node is known by its department's
    id, and the children arrays are the entries of a map from ids. */
module DepartmentForest {
  import opened Wrappers

  datatype Row = Row(id: string, parent: Option<string>, order: int)

  predicate Clash(rows: seq<Row>, i: nat, j: nat) { i < j < |rows| && rows[i].id == rows[j].id }

  ghost predicate UniqueIds(rows: seq<Row>) {
    forall i: nat, j: nat {:trigger Clash(rows, i, j)} :: !Clash(rows, i, j)
  }

  lemma LastUnique(rows: seq<Row>)
    requires UniqueIds(rows) && rows != []
    ensures UniqueIds(rows[..|rows| - 1])
    ensures forall r | r in rows[..|rows| - 1] :: r.id != rows[|rows| - 1].id
  {
    var n := |rows| - 1;
    forall i: nat, j: nat ensures !Clash(rows[..n], i, j) { assert !Clash(rows, i, j); }
    forall i: nat | i < n ensures rows[..n][i].id != rows[n].id { assert !Clash(rows, i, n); }
  }

  function IdSet(rows: seq<Row>): (ids: set<string>)
    ensures forall r | r in rows :: r.id in ids
  {
    set r | r in rows :: r.id
  }

  /** The parent id is given and belongs to a row of the list. */
  predicate Attached(ids: set<string>, r: Row) { r.parent.Some? && r.parent.value != "" && r.parent.value in ids }

  predicate ChildOf(r: Row, id: string) { r.parent == Some(id) && id != "" }

  function KidsOf(rows: seq<Row>, id: string): seq<Row> {
    if rows == [] then []
    else KidsOf(rows[..|rows| - 1], id) + (if ChildOf(rows[|rows| - 1], id) then [rows[|rows| - 1]] else [])
  }

  function RootsOf(rows: seq<Row>, ids: set<string>): seq<Row> {
    if rows == [] then []
    else RootsOf(rows[..|rows| - 1], ids) + (if Attached(ids, rows[|rows| - 1]) then [] else [rows[|rows| - 1]])
  }

  lemma {:induction false} KidsMembers(rows: seq<Row>, id: string)
    ensures forall r :: r in KidsOf(rows, id) <==> r in rows && ChildOf(r, id)
  {
    if rows != [] {
      KidsMembers(rows[..|rows| - 1], id);
      assert rows == rows[..|rows| - 1] + [rows[|rows| - 1]];
    }
  }

  lemma {:induction false} RootsMembers(rows: seq<Row>, ids: set<string>)
    ensures forall r :: r in RootsOf(rows, ids) <==> r in rows && !Attached(ids, r)
  {
    if rows != [] {
      RootsMembers(rows[..|rows| - 1], ids);
      assert rows == rows[..|rows| - 1] + [rows[|rows| - 1]];
    }
  }

  predicate Distinct(s: seq<Row>) { forall i, j :: 0 <= i < j < |s| ==> s[i] != s[j] }

  // ------------------------------------------------------------------ sorting one list

  function InsertRow(r: Row, s: seq<Row>): seq<Row> {
    if s == [] || r.order <= s[0].order then [r] + s else [s[0]] + InsertRow(r, s[1..])
  }

  /** `sort((a, b) => a.order - b.order)`, which is stable. */
  function SortRows(s: seq<Row>): seq<Row> {
    if s == [] then [] else InsertRow(s[0], SortRows(s[1..]))
  }

  predicate InOrder(s: seq<Row>) { forall i, j :: 0 <= i <= j < |s| ==> s[i].order <= s[j].order }

  lemma LeastFirst(first: Row, t: seq<Row>, rest: seq<Row>, r: Row)
    requires InOrder(t) && multiset(t) == multiset(rest) + multiset{r}
    requires first.order <= r.order && InOrder([first] + rest)
    ensures InOrder([first] + t)
  {
    forall x | x in t ensures first.order <= x.order {
      assert x in multiset(t);
      if x != r {
        assert x in multiset(rest);
        var k :| 0 <= k < |rest| && rest[k] == x;
        assert ([first] + rest)[0] == first && ([first] + rest)[k + 1] == x;
      }
    }
  }

  lemma {:induction false} InsertKeeps(r: Row, s: seq<Row>)
    requires InOrder(s)
    ensures InOrder(InsertRow(r, s)) && multiset(InsertRow(r, s)) == multiset(s) + multiset{r}
  {
    if s != [] && r.order > s[0].order {
      var rest := s[1..];
      InsertKeeps(r, rest);
      assert s == [s[0]] + rest;
      LeastFirst(s[0], InsertRow(r, rest), rest, r);
    }
  }

  lemma {:induction false} SortSorts(s: seq<Row>)
    ensures InOrder(SortRows(s)) && multiset(SortRows(s)) == multiset(s)
  {
    if s != [] {
      SortSorts(s[1..]);
      InsertKeeps(s[0], SortRows(s[1..]));
      assert s == [s[0]] + s[1..];
    }
  }

  lemma {:induction false} SortedStays(s: seq<Row>)
    requires InOrder(s)
    ensures SortRows(s) == s
  {
    if s != [] {
      SortedStays(s[1..]);
      assert |s| > 1 ==> s[0].order <= s[1].order;
    }
  }

  lemma SameMembers(a: seq<Row>, b: seq<Row>)
    requires multiset(a) == multiset(b)
    ensures forall r :: r in a <==> r in b
    ensures |a| == |b|
  {
    forall r ensures r in a <==> r in b { assert r in multiset(a) <==> r in multiset(b); }
    assert |multiset(a)| == |multiset(b)|;
  }

  // ------------------------------------------------------------------ ancestors

  function Lookup(rows: seq<Row>, id: string): (r: Option<Row>)
    ensures r.Some? ==> r.value in rows && r.value.id == id
    ensures r.None? ==> forall x | x in rows :: x.id != id
  {
    if rows == [] then None else if rows[0].id == id then Some(rows[0]) else Lookup(rows[1..], id)
  }

  /** The i-th ancestor, while parents are given and known. */
  function Up(rows: seq<Row>, x: Row, i: nat): (r: Option<Row>)
    requires x in rows
    ensures r.Some? ==> r.value in rows
    decreases i
  {
    if i == 0 then Some(x) else
    var below := Up(rows, x, i - 1);
    if below.Some? && Attached(IdSet(rows), below.value) then Lookup(rows, below.value.parent.value) else None
  }

  /** The parent chain of x ends, after i steps, at a row without a known parent. */
  predicate EndsAt(rows: seq<Row>, x: Row, i: nat)
    requires x in rows
  {
    Up(rows, x, i).Some? && !Attached(IdSet(rows), Up(rows, x, i).value)
  }

  ghost predicate Ends(rows: seq<Row>, x: Row) {
    x in rows && exists i: nat :: EndsAt(rows, x, i)
  }

  lemma {:induction false} NoneAfter(rows: seq<Row>, x: Row, i: nat, j: nat)
    requires x in rows && i < j && EndsAt(rows, x, i)
    ensures Up(rows, x, j).None?
    decreases j
  {
    if j > i + 1 { NoneAfter(rows, x, i, j - 1); }
  }

  lemma {:induction false} Repeats(rows: seq<Row>, x: Row, i: nat, j: nat, k: nat)
    requires x in rows && Up(rows, x, i) == Up(rows, x, j)
    ensures Up(rows, x, i + k) == Up(rows, x, j + k)
    decreases k
  {
    if k > 0 { Repeats(rows, x, i, j, k - 1); }
  }

  lemma {:induction false} SomeBefore(rows: seq<Row>, x: Row, i: nat, j: nat)
    requires x in rows && i <= j && Up(rows, x, j).Some?
    ensures Up(rows, x, i).Some?
    decreases j - i
  {
    if i < j { SomeBefore(rows, x, i, j - 1); }
  }

  /** The first m + 1 members of a chain that ends after m steps. */
  function Chain(rows: seq<Row>, x: Row, m: nat): (c: seq<Row>)
    requires x in rows && Up(rows, x, m).Some?
    ensures |c| == m + 1 && forall i | 0 <= i <= m :: Up(rows, x, i) == Some(c[i])
    decreases m
  {
    if m == 0 then [x] else
    SomeBefore(rows, x, m - 1, m);
    Chain(rows, x, m - 1) + [Up(rows, x, m).value]
  }

  lemma {:induction false} DistinctFits(s: seq<Row>, rows: seq<Row>)
    requires Distinct(s) && forall r | r in s :: r in rows
    ensures |s| <= |rows|
    decreases |s|
  {
    if s != [] {
      var last := s[|s| - 1];
      assert last in s;
      var k :| 0 <= k < |rows| && rows[k] == last;
      var rest := rows[..k] + rows[k + 1..];
      forall r | r in s[..|s| - 1] ensures r in rest {
        assert r in s;
        var i :| 0 <= i < |rows| && rows[i] == r;
        assert i != k;
        if i < k { assert rest[i] == r; } else { assert rest[i - 1] == r; }
      }
      DistinctFits(s[..|s| - 1], rest);
    }
  }

  /** A chain that ends does so within as many steps as there are rows. */
  lemma ChainShort(rows: seq<Row>, x: Row, m: nat)
    requires x in rows && EndsAt(rows, x, m)
    ensures m < |rows|
  {
    var c := Chain(rows, x, m);
    forall i, j | 0 <= i < j < |c| ensures c[i] != c[j] {
      if c[i] == c[j] {
        Repeats(rows, x, i, j, m - j);
        NoneAfter(rows, x, i + m - j, m);
      }
    }
    forall r | r in c ensures r in rows {
      var i :| 0 <= i < |c| && c[i] == r;
      assert Up(rows, x, i) == Some(r);
    }
    DistinctFits(c, rows);
  }

  // ------------------------------------------------------------------ what the forest shows

  /** The children list of id holds exactly its child rows, in any order. */
  predicate ListOk(rows: seq<Row>, kids: map<string, seq<Row>>, id: string) {
    id in kids && multiset(kids[id]) == multiset(KidsOf(rows, id))
  }

  ghost predicate KidsOk(rows: seq<Row>, kids: map<string, seq<Row>>) {
    forall r {:trigger ListOk(rows, kids, r.id)} | r in rows :: ListOk(rows, kids, r.id)
  }

  /** How often x shows in the forest below the nodes, these included, down to n levels. */
  function Shown(kids: map<string, seq<Row>>, nodes: seq<Row>, n: nat, x: Row): nat
    decreases n, |nodes|
  {
    if n == 0 || nodes == [] then 0
    else
      var below := if nodes[0].id in kids then Shown(kids, kids[nodes[0].id], n - 1, x) else 0;
      (if x == nodes[0] then 1 else 0) + below + Shown(kids, nodes[1..], n, x)
  }

  function Hit(rows: seq<Row>, x: Row, nodes: seq<Row>, i: nat): nat
    requires x in rows
  {
    if Up(rows, x, i).Some? && Up(rows, x, i).value in nodes then 1 else 0
  }

  /** How many of the first n ancestors of x (itself included) are among the nodes. */
  function Tally(rows: seq<Row>, x: Row, nodes: seq<Row>, n: nat): nat
    requires x in rows
  {
    if n == 0 then 0 else Tally(rows, x, nodes, n - 1) + Hit(rows, x, nodes, n - 1)
  }

  lemma {:induction false} TallySplit(rows: seq<Row>, x: Row, nodes: seq<Row>, n: nat)
    requires x in rows && nodes != [] && Distinct(nodes)
    ensures Tally(rows, x, nodes, n) == Tally(rows, x, [nodes[0]], n) + Tally(rows, x, nodes[1..], n)
  {
    if n > 0 {
      TallySplit(rows, x, nodes, n - 1);
      assert forall r :: r in nodes <==> r == nodes[0] || r in nodes[1..];
      assert nodes[0] !in nodes[1..];
    }
  }

  lemma OneRow(rows: seq<Row>, a: Row, b: Row)
    requires UniqueIds(rows) && a in rows && b in rows && a.id == b.id
    ensures a == b
  {
    var i :| 0 <= i < |rows| && rows[i] == a;
    var j :| 0 <= j < |rows| && rows[j] == b;
    assert !Clash(rows, i, j) && !Clash(rows, j, i);
  }

  /** The next ancestor is a iff this one is a child of a. */
  lemma HitShift(rows: seq<Row>, x: Row, a: Row, kids: seq<Row>, i: nat)
    requires UniqueIds(rows) && x in rows && a in rows && multiset(kids) == multiset(KidsOf(rows, a.id))
    ensures Hit(rows, x, [a], i + 1) == Hit(rows, x, kids, i)
  {
    SameMembers(kids, KidsOf(rows, a.id));
    KidsMembers(rows, a.id);
    var below := Up(rows, x, i);
    if below.Some? && Attached(IdSet(rows), below.value) {
      var p := Lookup(rows, below.value.parent.value);
      if p.Some? && p.value.id == a.id { OneRow(rows, p.value, a); }
    }
  }

  lemma {:induction false} TallyShift(rows: seq<Row>, x: Row, a: Row, kids: seq<Row>, n: nat)
    requires x in rows
    requires forall i: nat | i < n :: Hit(rows, x, [a], i + 1) == Hit(rows, x, kids, i)
    ensures Tally(rows, x, [a], n + 1) == Hit(rows, x, [a], 0) + Tally(rows, x, kids, n)
    decreases n
  {
    if n == 0 {
      assert Tally(rows, x, [a], 0) == 0;
    } else {
      TallyShift(rows, x, a, kids, n - 1);
      assert Hit(rows, x, [a], n) == Hit(rows, x, kids, n - 1);
    }
  }

  lemma {:induction false} KidsDistinct(rows: seq<Row>, id: string)
    requires UniqueIds(rows)
    ensures Distinct(KidsOf(rows, id))
  {
    if rows != [] {
      LastUnique(rows);
      KidsDistinct(rows[..|rows| - 1], id);
      KidsMembers(rows[..|rows| - 1], id);
    }
  }

  lemma DistinctPermuted(a: seq<Row>, b: seq<Row>)
    requires multiset(a) == multiset(b) && Distinct(a)
    ensures Distinct(b)
  {
    forall i, j | 0 <= i < j < |b| ensures b[i] != b[j] {
      if b[i] == b[j] {
        assert b == b[..i] + [b[i]] + b[i + 1..j] + [b[j]] + b[j + 1..];
        AtMostOnce(a, b[i]);
      }
    }
  }

  lemma {:induction false} AtMostOnce(a: seq<Row>, r: Row)
    requires Distinct(a)
    ensures multiset(a)[r] <= 1
  {
    if a != [] {
      AtMostOnce(a[1..], r);
      assert a == [a[0]] + a[1..];
      assert a[0] !in a[1..];
      assert r !in a[1..] ==> multiset(a[1..])[r] == 0;
    }
  }

  lemma NodeKids(rows: seq<Row>, kids: map<string, seq<Row>>, a: Row)
    requires UniqueIds(rows) && KidsOk(rows, kids) && a in rows
    ensures a.id in kids && Distinct(kids[a.id]) && forall r | r in kids[a.id] :: r in rows
  {
    assert ListOk(rows, kids, a.id);
    SameMembers(kids[a.id], KidsOf(rows, a.id));
    KidsMembers(rows, a.id);
    KidsDistinct(rows, a.id);
    DistinctPermuted(KidsOf(rows, a.id), kids[a.id]);
  }

  lemma TallyNode(rows: seq<Row>, kids: map<string, seq<Row>>, nodes: seq<Row>, n: nat, x: Row)
    requires UniqueIds(rows) && KidsOk(rows, kids) && x in rows && n > 0
    requires nodes != [] && Distinct(nodes) && nodes[0] in rows && nodes[0].id in kids
    ensures Tally(rows, x, nodes, n)
            == (if x == nodes[0] then 1 else 0) + Tally(rows, x, kids[nodes[0].id], n - 1) + Tally(rows, x, nodes[1..], n)
  {
    var a := nodes[0];
    assert ListOk(rows, kids, a.id);
    TallySplit(rows, x, nodes, n);
    forall i: nat | i < n - 1 ensures Hit(rows, x, [a], i + 1) == Hit(rows, x, kids[a.id], i) {
      HitShift(rows, x, a, kids[a.id], i);
    }
    TallyShift(rows, x, a, kids[a.id], n - 1);
    assert Hit(rows, x, [a], 0) == if x == a then 1 else 0;
  }

  /** Every row comes up once for each of its ancestors among the nodes. */
  lemma {:induction false} ShownIsTally(rows: seq<Row>, kids: map<string, seq<Row>>, nodes: seq<Row>, n: nat, x: Row)
    requires UniqueIds(rows) && KidsOk(rows, kids) && x in rows
    requires Distinct(nodes) && forall r | r in nodes :: r in rows
    ensures Shown(kids, nodes, n, x) == Tally(rows, x, nodes, n)
    decreases n, |nodes|
  {
    if n == 0 {
    } else if nodes == [] {
      TallyEmpty(rows, x, n);
    } else {
      NodeKids(rows, kids, nodes[0]);
      ShownIsTally(rows, kids, kids[nodes[0].id], n - 1, x);
      ShownIsTally(rows, kids, nodes[1..], n, x);
      TallyNode(rows, kids, nodes, n, x);
    }
  }

  lemma {:induction false} TallyEmpty(rows: seq<Row>, x: Row, n: nat)
    requires x in rows
    ensures Tally(rows, x, [], n) == 0
  {
    if n > 0 { TallyEmpty(rows, x, n - 1); }
  }

  /** An ancestor is among the roots exactly where the chain ends. */
  lemma HitRoot(rows: seq<Row>, x: Row, roots: seq<Row>, i: nat)
    requires x in rows && multiset(roots) == multiset(RootsOf(rows, IdSet(rows)))
    ensures Hit(rows, x, roots, i) == if EndsAt(rows, x, i) then 1 else 0
  {
    SameMembers(roots, RootsOf(rows, IdSet(rows)));
    RootsMembers(rows, IdSet(rows));
  }

  lemma {:induction false} TallyRoots(rows: seq<Row>, x: Row, roots: seq<Row>, n: nat)
    requires x in rows
    requires forall i: nat | i < n :: Hit(rows, x, roots, i) == if EndsAt(rows, x, i) then 1 else 0
    ensures (forall i: nat | i < n :: !EndsAt(rows, x, i)) ==> Tally(rows, x, roots, n) == 0
    ensures forall m: nat | m < n && EndsAt(rows, x, m) :: Tally(rows, x, roots, n) == 1
  {
    if n > 0 {
      TallyRoots(rows, x, roots, n - 1);
      forall m: nat | m < n && EndsAt(rows, x, m) ensures Tally(rows, x, roots, n) == 1 {
        forall i: nat | i < m ensures !EndsAt(rows, x, i) { if EndsAt(rows, x, i) { NoneAfter(rows, x, i, m); } }
        if m < n - 1 { NoneAfter(rows, x, m, n - 1); }
      }
    }
  }

  lemma {:induction false} RootsDistinct(rows: seq<Row>, ids: set<string>)
    requires UniqueIds(rows)
    ensures Distinct(RootsOf(rows, ids))
  {
    if rows != [] {
      LastUnique(rows);
      RootsDistinct(rows[..|rows| - 1], ids);
      RootsMembers(rows[..|rows| - 1], ids);
    }
  }

  /** Main result: down to any depth from the number of rows on, the forest shows every
      row whose parent chain ends, exactly once; rows on or below a parent cycle never show. */
  lemma ForestExact(rows: seq<Row>, kids: map<string, seq<Row>>, roots: seq<Row>, n: nat, x: Row)
    requires UniqueIds(rows) && KidsOk(rows, kids) && multiset(roots) == multiset(RootsOf(rows, IdSet(rows)))
    requires x in rows && n >= |rows|
    ensures Shown(kids, roots, n, x) == if Ends(rows, x) then 1 else 0
  {
    SameMembers(roots, RootsOf(rows, IdSet(rows)));
    RootsMembers(rows, IdSet(rows));
    RootsDistinct(rows, IdSet(rows));
    DistinctPermuted(RootsOf(rows, IdSet(rows)), roots);
    ShownIsTally(rows, kids, roots, n, x);
    forall i: nat | i < n ensures Hit(rows, x, roots, i) == if EndsAt(rows, x, i) then 1 else 0 { HitRoot(rows, x, roots, i); }
    TallyRoots(rows, x, roots, n);
    if Ends(rows, x) {
      var m: nat :| EndsAt(rows, x, m);
      ChainShort(rows, x, m);
    }
  }
}
