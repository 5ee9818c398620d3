/** Detecting routes that can never be reached because an earlier wildcard route takes their
    requests. */
module RouteShadow {
  import opened Wrappers
  import opened JsStrings

  datatype Route = Route(verb: string, path: string, order: nat)
  datatype Conflict = Conflict(wildcardRoute: Route, shadowedRoute: Route, conflictSegment: string)

  // ------------------------------------------------------------------ what routes match

  /** `split('/').filter(Boolean)` */
  function Segments(path: string): seq<string> { NonEmpty(Split(path, "/")) }

  predicate Wild(segment: string) { segment != "" && segment[0] == ':' }

  /** A segment of a concrete path. */
  predicate Segment(s: string) { s != "" && '/' !in s }

  predicate WellFormed(pattern: seq<string>) { forall i :: 0 <= i < |pattern| ==> Segment(pattern[i]) }

  predicate Fits(pattern: string, segment: string) { Segment(segment) && (Wild(pattern) || pattern == segment) }

  /** The pattern matches the concrete path. */
  predicate Matches(pattern: seq<string>, path: seq<string>) {
    |path| == |pattern| && forall i :: 0 <= i < |pattern| ==> Fits(pattern[i], path[i])
  }

  /** Every request the later route is meant for is taken by the earlier one, which takes more. */
  ghost predicate Shadows(a: seq<string>, b: seq<string>) {
    && (forall path :: Matches(b, path) ==> Matches(a, path))
    && (exists path :: Matches(a, path) && !Matches(b, path))
  }

  lemma {:induction false} PiecesPlain(path: string)
    ensures forall p | p in Split(path, "/") :: '/' !in p
    decreases |path|
  {
    var i := IndexOf(path, "/");
    if i == -1 {
      forall k | 0 <= k < |path| ensures path[k] != '/' { CharAt(path, '/', k); }
    } else {
      PiecesPlain(path[i + 1..]);
      forall k | 0 <= k < i ensures path[k] != '/' { CharAt(path, '/', k); }
    }
  }

  lemma SegmentsWellFormed(path: string)
    ensures WellFormed(Segments(path))
  {
    PiecesPlain(path);
    forall i | 0 <= i < |Segments(path)| ensures Segment(Segments(path)[i]) {
      assert Segments(path)[i] in Segments(path);
    }
  }

  // ------------------------------------------------------------------ the decision

  predicate Covers(a: string, b: string) { Wild(a) || (!Wild(b) && a == b) }

  /** Position by position: a's wildcard, or the same fixed text in both; and somewhere a
      wildcard over fixed text. */
  predicate Blocks(a: seq<string>, b: seq<string>) {
    && |a| == |b|
    && (forall i :: 0 <= i < |a| ==> Covers(a[i], b[i]))
    && (exists i :: 0 <= i < |a| && Wild(a[i]) && !Wild(b[i]))
  }

  /** A path that matches `main`, with a segment unlike that of `other` where main leaves the choice. */
  function Instance(main: seq<string>, other: seq<string>): (path: seq<string>)
    requires WellFormed(main) && WellFormed(other)
    ensures Matches(main, path)
    ensures forall i :: 0 <= i < |main| && i < |other| && Wild(main[i]) ==> path[i] != other[i]
  {
    if main == [] then []
    else
      var first := if !Wild(main[0]) then main[0] else if other == [] then "x" else other[0] + "x";
      var rest := Instance(main[1..], if other == [] then [] else other[1..]);
      [first] + rest
  }

  /** Main result: the segment comparison finds exactly the shadowed routes. */
  lemma BlocksIffShadows(a: seq<string>, b: seq<string>)
    requires WellFormed(a) && WellFormed(b)
    ensures Blocks(a, b) <==> Shadows(a, b)
  {
    if Blocks(a, b) {
      forall path | Matches(b, path) ensures Matches(a, path) {
        forall i | 0 <= i < |a| ensures Fits(a[i], path[i]) { assert Covers(a[i], b[i]) && Fits(b[i], path[i]); }
      }
      var k :| 0 <= k < |a| && Wild(a[k]) && !Wild(b[k]);
      var path := Instance(a, b);
      assert !Fits(b[k], path[k]);
    }
    if Shadows(a, b) {
      var path := Instance(b, a);
      assert Matches(a, path);
      forall i | 0 <= i < |a| ensures Covers(a[i], b[i]) { assert Fits(a[i], path[i]) && Fits(b[i], path[i]); }
      var more :| Matches(a, more) && !Matches(b, more);
      var k :| 0 <= k < |b| && !Fits(b[k], more[k]);
      assert Fits(a[k], more[k]) && Covers(a[k], b[k]);
    }
  }

  /** A parameter registered before its fixed siblings takes their requests, the other way
      round it does not. */
  lemma ParameterHides(before: seq<string>, name: string, text: string, after: seq<string>)
    requires WellFormed(before + [":" + name] + after) && WellFormed(before + [text] + after) && text != "" && text[0] != ':'
    ensures Shadows(before + [":" + name] + after, before + [text] + after)
    ensures !Shadows(before + [text] + after, before + [":" + name] + after)
  {
    var a, b := before + [":" + name] + after, before + [text] + after;
    BlocksIffShadows(a, b);
    BlocksIffShadows(b, a);
    assert Wild(a[|before|]) && !Wild(b[|before|]);
    assert !Covers(b[|before|], a[|before|]);
  }

  predicate Takes(a: string, b: string) { Wild(a) && !Wild(b) }

  /** The rightmost fixed text among the first n that a parameter of the earlier pattern
      stands for. */
  ghost predicate LastTaken(a: seq<string>, b: seq<string>, n: nat, text: Option<string>)
    requires n <= |a| == |b|
  {
    match text
    case None => forall k :: 0 <= k < n ==> !Takes(a[k], b[k])
    case Some(t) => exists i :: 0 <= i < n && Takes(a[i], b[i]) && b[i] == t && forall k :: i < k < n ==> !Takes(a[k], b[k])
  }

  lemma TakenNext(a: seq<string>, b: seq<string>, n: nat, text: Option<string>)
    requires n < |a| == |b| && LastTaken(a, b, n, text)
    ensures LastTaken(a, b, n + 1, if Takes(a[n], b[n]) then Some(b[n]) else text)
  {}

  lemma TakenBlocks(a: seq<string>, b: seq<string>, text: Option<string>)
    requires |a| == |b| && LastTaken(a, b, |a|, text) && forall i :: 0 <= i < |a| ==> Covers(a[i], b[i])
    ensures Blocks(a, b) <==> text.Some?
  {
    if Blocks(a, b) {
      var i :| 0 <= i < |a| && Wild(a[i]) && !Wild(b[i]);
      assert Takes(a[i], b[i]);
    }
  }

  // ------------------------------------------------------------------ the detector

  method CheckShadow(earlier: Route, later: Route) returns (conflict: Option<Conflict>)
    ensures conflict.Some? <==> Shadows(Segments(earlier.path), Segments(later.path))
    ensures conflict.Some? ==>
              conflict.value.wildcardRoute == earlier && conflict.value.shadowedRoute == later
              && |Segments(earlier.path)| == |Segments(later.path)|
              && LastTaken(Segments(earlier.path), Segments(later.path), |Segments(later.path)|, Some(conflict.value.conflictSegment))
  {
    var aSegs, bSegs := Segments(earlier.path), Segments(later.path);
    SegmentsWellFormed(earlier.path);
    SegmentsWellFormed(later.path);
    BlocksIffShadows(aSegs, bSegs);
    hide Shadows, Segments, WellFormed, LastTaken;
    if |aSegs| != |bSegs| { return None; }
    var conflictSegment: Option<string> := None;
    for i := 0 to |aSegs|
      invariant forall k :: 0 <= k < i ==> Covers(aSegs[k], bSegs[k])
      invariant LastTaken(aSegs, bSegs, i, conflictSegment)
    {
      TakenNext(aSegs, bSegs, i, conflictSegment);
      var aIsWild, bIsWild := Wild(aSegs[i]), Wild(bSegs[i]);
      if aIsWild && !bIsWild {
        conflictSegment := Some(bSegs[i]);
      } else if !aIsWild && bIsWild {
        assert !Covers(aSegs[i], bSegs[i]);
        return None;
      } else if !aIsWild && !bIsWild && aSegs[i] != bSegs[i] {
        assert !Covers(aSegs[i], bSegs[i]);
        return None;
      }
    }
    TakenBlocks(aSegs, bSegs, conflictSegment);
    if conflictSegment.Some? { return Some(Conflict(earlier, later, conflictSegment.value)); }
    return None;
  }

  ghost predicate Shadowed(routes: seq<Route>, i: int, j: int) {
    0 <= i < j < |routes| && routes[i].verb == routes[j].verb && Shadows(Segments(routes[i].path), Segments(routes[j].path))
  }

  /** The conflict is about routes a and b and names the text taken. */
  ghost predicate Names(routes: seq<Route>, c: Conflict, a: int, b: int) {
    && 0 <= a < |routes| && 0 <= b < |routes| && c.wildcardRoute == routes[a] && c.shadowedRoute == routes[b]
    && var aSegs, bSegs := Segments(routes[a].path), Segments(routes[b].path);
       |aSegs| == |bSegs| && LastTaken(aSegs, bSegs, |aSegs|, Some(c.conflictSegment))
  }

  predicate PairBefore(p: (int, int), q: (int, int)) { p.0 < q.0 || (p.0 == q.0 && p.1 < q.1) }

  /** The pairs reported so far are exactly the shadowed ones before (i, j), each once, in order. */
  ghost predicate Reported(routes: seq<Route>, conflicts: seq<Conflict>, pairs: seq<(int, int)>, i: int, j: int) {
    && |pairs| == |conflicts|
    && (forall k :: 0 <= k < |pairs| ==>
          Shadowed(routes, pairs[k].0, pairs[k].1) && PairBefore(pairs[k], (i, j))
          && Names(routes, conflicts[k], pairs[k].0, pairs[k].1))
    && (forall k, l :: 0 <= k < l < |pairs| ==> PairBefore(pairs[k], pairs[l]))
    && (forall a, b :: Shadowed(routes, a, b) && PairBefore((a, b), (i, j)) ==> (a, b) in pairs)
  }

  lemma ReportStart(routes: seq<Route>)
    ensures Reported(routes, [], [], 0, 0)
  {}

  lemma ReportOne(routes: seq<Route>, conflicts: seq<Conflict>, pairs: seq<(int, int)>, i: int, j: int, found: Conflict)
    requires Reported(routes, conflicts, pairs, i, j) && Shadowed(routes, i, j)
    requires Names(routes, found, i, j)
    ensures Reported(routes, conflicts + [found], pairs + [(i, j)], i, j + 1)
  {
    hide Names, Shadows, Segments;
    var p' := pairs + [(i, j)];
    assert p'[|pairs|] == (i, j);
    forall a, b | Shadowed(routes, a, b) && PairBefore((a, b), (i, j + 1)) ensures (a, b) in p' {
      assert (a, b) == (i, j) || PairBefore((a, b), (i, j));
    }
  }

  lemma ReportNone(routes: seq<Route>, conflicts: seq<Conflict>, pairs: seq<(int, int)>, i: int, j: int)
    requires Reported(routes, conflicts, pairs, i, j) && !Shadowed(routes, i, j)
    ensures Reported(routes, conflicts, pairs, i, j + 1)
  {
    forall a, b | Shadowed(routes, a, b) && PairBefore((a, b), (i, j + 1)) ensures (a, b) in pairs {
      assert PairBefore((a, b), (i, j));
    }
  }

  lemma NextRow(routes: seq<Route>, conflicts: seq<Conflict>, pairs: seq<(int, int)>, i: int)
    requires 0 <= i < |routes|
    ensures Reported(routes, conflicts, pairs, i, 0) ==> Reported(routes, conflicts, pairs, i, i + 1)
    ensures Reported(routes, conflicts, pairs, i, |routes|) ==> Reported(routes, conflicts, pairs, i + 1, 0)
  {}

  ghost predicate Named(routes: seq<Route>, conflicts: seq<Conflict>, a: int, b: int) {
    exists k :: 0 <= k < |conflicts| && Names(routes, conflicts[k], a, b)
  }

  ghost predicate Justified(routes: seq<Route>, c: Conflict) {
    exists a, b :: Shadowed(routes, a, b) && Names(routes, c, a, b)
  }

  /** The conflicts name exactly the shadowed pairs. */
  ghost predicate Exact(routes: seq<Route>, conflicts: seq<Conflict>) {
    && (forall a, b :: Shadowed(routes, a, b) ==> Named(routes, conflicts, a, b))
    && (forall k | 0 <= k < |conflicts| :: Justified(routes, conflicts[k]))
  }

  method DetectConflicts(routes: seq<Route>) returns (conflicts: seq<Conflict>, ghost pairs: seq<(int, int)>)
    ensures Exact(routes, conflicts)
    ensures Reported(routes, conflicts, pairs, |routes|, 0)
    ensures forall a, b :: Shadowed(routes, a, b) <==> (a, b) in pairs
  {
    ReportStart(routes);
    hide Reported, Shadows, Segments;
    conflicts, pairs := [], [];
    for i := 0 to |routes|
      invariant Reported(routes, conflicts, pairs, i, 0)
    {
      NextRow(routes, conflicts, pairs, i);
      for j := i + 1 to |routes|
        invariant Reported(routes, conflicts, pairs, i, j)
      {
        var conflict: Option<Conflict> := None;
        if routes[i].verb == routes[j].verb { conflict := CheckShadow(routes[i], routes[j]); }
        if conflict.Some? {
          ReportOne(routes, conflicts, pairs, i, j, conflict.value);
          conflicts, pairs := conflicts + [conflict.value], pairs + [(i, j)];
        } else {
          ReportNone(routes, conflicts, pairs, i, j);
        }
      }
      NextRow(routes, conflicts, pairs, i);
    }
    AllReported(routes, conflicts, pairs);
    AllNamed(routes, conflicts, pairs);
  }

  lemma AllNamed(routes: seq<Route>, conflicts: seq<Conflict>, pairs: seq<(int, int)>)
    requires Reported(routes, conflicts, pairs, |routes|, 0)
    requires forall a, b :: Shadowed(routes, a, b) <==> (a, b) in pairs
    ensures Exact(routes, conflicts)
  {
    forall a, b | Shadowed(routes, a, b) ensures Named(routes, conflicts, a, b) {
      var k :| 0 <= k < |pairs| && pairs[k] == (a, b);
      assert Names(routes, conflicts[k], a, b);
    }
    forall k | 0 <= k < |conflicts| ensures Justified(routes, conflicts[k]) {
      var (a, b) := pairs[k];
      assert Shadowed(routes, a, b) && Names(routes, conflicts[k], a, b);
    }
  }

  lemma AllReported(routes: seq<Route>, conflicts: seq<Conflict>, pairs: seq<(int, int)>)
    requires Reported(routes, conflicts, pairs, |routes|, 0)
    ensures forall a, b :: Shadowed(routes, a, b) <==> (a, b) in pairs
  {
    forall a, b ensures Shadowed(routes, a, b) <==> (a, b) in pairs {
      if (a, b) in pairs {
        var k :| 0 <= k < |pairs| && pairs[k] == (a, b);
        assert Shadowed(routes, pairs[k].0, pairs[k].1);
      }
    }
  }
}
