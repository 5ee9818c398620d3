/** The string operations of the source language that the modelled code relies on:
    `trim`, `indexOf`, `lastIndexOf`, `split`, `join`, `filter(Boolean)`, and the code-unit order used by `sort()`. */
module JsStrings {

  /** Characters removed by `trim()`. */
  predicate IsSpace(c: char) {
    || c in {' ', '\t', '\n', '\r', '\U{00000B}', '\U{00000C}', '\U{0000A0}', '\U{001680}', '\U{00202F}',
             '\U{00205F}', '\U{003000}', '\U{002028}', '\U{002029}', '\U{00FEFF}'}
    || '\U{002000}' <= c <= '\U{00200A}'
  }

  function TrimStart(s: string): string {
    if s != "" && IsSpace(s[0]) then TrimStart(s[1..]) else s
  }

  function TrimEnd(s: string): string {
    if s != "" && IsSpace(s[|s| - 1]) then TrimEnd(s[..|s| - 1]) else s
  }

  function Trim(s: string): string { TrimEnd(TrimStart(s)) }

  predicate Blank(s: string) { forall i :: 0 <= i < |s| ==> IsSpace(s[i]) }

  lemma {:induction false} TrimStartExact(s: string) returns (before: string)
    ensures s == before + TrimStart(s) && Blank(before)
    ensures TrimStart(s) != "" ==> !IsSpace(TrimStart(s)[0])
  {
    if s != "" && IsSpace(s[0]) {
      before := TrimStartExact(s[1..]);
      before := [s[0]] + before;
      assert s == [s[0]] + s[1..];
    } else {
      before := "";
    }
  }

  lemma {:induction false} TrimEndExact(s: string) returns (after: string)
    ensures s == TrimEnd(s) + after && Blank(after)
    ensures TrimEnd(s) != "" ==> !IsSpace(TrimEnd(s)[|TrimEnd(s)| - 1])
  {
    if s != "" && IsSpace(s[|s| - 1]) {
      after := TrimEndExact(s[..|s| - 1]);
      after := after + [s[|s| - 1]];
      assert s == s[..|s| - 1] + [s[|s| - 1]];
    } else {
      after := "";
    }
  }

  /** Trimming takes white space away at both ends, and leaves none there. */
  lemma TrimExact(s: string) returns (before: string, after: string)
    ensures s == before + Trim(s) + after && Blank(before) && Blank(after)
    ensures var t := Trim(s); t != "" ==> !IsSpace(t[0]) && !IsSpace(t[|t| - 1])
  {
    before := TrimStartExact(s);
    after := TrimEndExact(TrimStart(s));
    var u := TrimStart(s);
    assert Trim(s) != "" ==> Trim(s)[0] == u[0];
  }

  predicate OccursAt(s: string, x: string, i: int) {
    0 <= i && i + |x| <= |s| && s[i..i + |x|] == x
  }

  ghost predicate Contains(s: string, x: string) {
    exists i :: OccursAt(s, x, i)
  }

  /** Leftmost occurrence of `x` in `s` at or after `from`, or -1. */
  function IndexFrom(s: string, x: string, from: nat): (i: int)
    requires from <= |s|
    ensures i == -1 || (from <= i && OccursAt(s, x, i))
    ensures forall k :: from <= k && (i == -1 || k < i) ==> !OccursAt(s, x, k)
    decreases |s| - from
  {
    if OccursAt(s, x, from) then from
    else if from == |s| then -1
    else IndexFrom(s, x, from + 1)
  }

  function IndexOf(s: string, x: string): (i: int)
    ensures i == -1 || OccursAt(s, x, i)
    ensures forall k :: (i == -1 || k < i) ==> !OccursAt(s, x, k)
  {
    IndexFrom(s, x, 0)
  }

  /** Position of the last `c` in `s`, or -1. */
  function LastIndexOf(s: string, c: char): (i: int)
    ensures -1 <= i < |s|
    ensures i >= 0 ==> s[i] == c
    ensures forall k :: i < k < |s| ==> s[k] != c
  {
    if s == "" then -1
    else if s[|s| - 1] == c then |s| - 1
    else LastIndexOf(s[..|s| - 1], c)
  }

  function Split(s: string, sep: string): (parts: seq<string>)
    requires sep != ""
    ensures |parts| >= 1
    decreases |s|
  {
    var i := IndexOf(s, sep);
    if i == -1 then [s] else [s[..i]] + Split(s[i + |sep|..], sep)
  }

  function Join(parts: seq<string>, sep: string): string {
    if parts == [] then ""
    else if |parts| == 1 then parts[0]
    else parts[0] + sep + Join(parts[1..], sep)
  }

  /** `filter(Boolean)` on a list of strings */
  function NonEmpty(parts: seq<string>): (r: seq<string>)
    ensures |r| <= |parts|
    ensures forall p :: p in r <==> p in parts && p != ""
  {
    if parts == [] then []
    else NonEmpty(parts[..|parts| - 1]) + if parts[|parts| - 1] == "" then [] else [parts[|parts| - 1]]
  }

  lemma JoinCons(head: string, parts: seq<string>, sep: string)
    requires parts != []
    ensures Join([head] + parts, sep) == head + sep + Join(parts, sep)
  {
    assert ([head] + parts)[1..] == parts;
  }

  lemma CutAt(s: string, x: string, i: nat)
    requires OccursAt(s, x, i)
    ensures s == s[..i] + x + s[i + |x|..]
  {}

  /** Splitting and joining with the same separator loses nothing. */
  lemma {:induction false} JoinSplit(s: string, sep: string)
    requires sep != ""
    ensures Join(Split(s, sep), sep) == s
    decreases |s|
  {
    var i := IndexOf(s, sep);
    if i == -1 {
      assert Split(s, sep) == [s];
    } else {
      var rest := s[i + |sep|..];
      JoinSplit(rest, sep);
      JoinCons(s[..i], Split(rest, sep), sep);
      CutAt(s, sep, i);
    }
  }

  lemma SplitStep(s: string, sep: string)
    requires sep != ""
    ensures var i := IndexOf(s, sep);
            Split(s, sep) == if i == -1 then [s] else [s[..i]] + Split(s[i + |sep|..], sep)
  {}

  /** `split(sep)[0]` and `split(sep).slice(1).join(sep)` cut a string at its first separator. */
  lemma SplitAtFirst(s: string, sep: string)
    requires sep != ""
    ensures var i := IndexOf(s, sep);
            if i == -1 then Split(s, sep) == [s]
            else |Split(s, sep)| >= 2 && Split(s, sep)[0] == s[..i]
                 && Join(Split(s, sep)[1..], sep) == s[i + |sep|..]
  {
    var i := IndexOf(s, sep);
    SplitStep(s, sep);
    if i != -1 {
      var rest := s[i + |sep|..];
      JoinSplit(rest, sep);
      assert Split(s, sep)[1..] == Split(rest, sep);
    }
  }

  /** A one-character search finds exactly the positions holding that character. */
  lemma CharAt(s: string, c: char, k: int)
    ensures OccursAt(s, [c], k) <==> 0 <= k < |s| && s[k] == c
  {
    if 0 <= k < |s| { assert s[k..k + 1] == [s[k]]; }
  }

  lemma FirstIndex(s: string, x: string, i: nat)
    requires OccursAt(s, x, i) && forall k :: 0 <= k < i ==> !OccursAt(s, x, k)
    ensures IndexOf(s, x) == i
  {}

  /** Strict order on strings by code unit, as `Array.prototype.sort` compares them. */
  predicate Less(a: string, b: string)
    decreases |a|
  {
    b != "" && (a == "" || a[0] < b[0] || (a[0] == b[0] && Less(a[1..], b[1..])))
  }

  lemma {:induction false} LessTotal(a: string, b: string)
    ensures Less(a, b) || a == b || Less(b, a)
    decreases |a|
  {
    if a != "" && b != "" && a[0] == b[0] {
      LessTotal(a[1..], b[1..]);
      assert a == [a[0]] + a[1..] && b == [b[0]] + b[1..];
    }
  }

  lemma {:induction false} LessIrreflexive(a: string)
    ensures !Less(a, a)
    decreases |a|
  {
    if a != "" { LessIrreflexive(a[1..]); }
  }

  lemma {:induction false} LessTransitive(a: string, b: string, c: string)
    requires Less(a, b) && Less(b, c)
    ensures Less(a, c)
    decreases |a|
  {
    if a != "" && a[0] == b[0] == c[0] { LessTransitive(a[1..], b[1..], c[1..]); }
  }
}
