/** The two SQL text operations used by the bulk path update: `LIKE` and `REPLACE`. */
module SqlText {
  import opened JsStrings

  /** `s LIKE p`: `%` matches any run of characters, `_` any one, a backslash quotes the next. */
  predicate Like(s: string, p: string)
    decreases |s| + |p|
  {
    if p == "" then s == ""
    else if p[0] == '%' then Like(s, p[1..]) || (s != "" && Like(s[1..], p))
    else if p[0] == '_' then s != "" && Like(s[1..], p[1..])
    else if p[0] == '\\' && |p| >= 2 then s != "" && s[0] == p[1] && Like(s[1..], p[2..])
    else s != "" && s[0] == p[0] && Like(s[1..], p[1..])
  }

  /** `REPLACE(s, x, y)`: every occurrence, from the left, without overlaps. */
  function ReplaceAll(s: string, x: string, y: string): string
    decreases |s|
  {
    var i := IndexOf(s, x);
    if x == "" || i == -1 then s
    else s[..i] + y + ReplaceAll(s[i + |x|..], x, y)
  }

  lemma {:induction false} LikeAnything(s: string)
    ensures Like(s, "%")
    decreases |s|
  {
    assert "%"[1..] == "";
    if s != "" { LikeAnything(s[1..]); }
  }

  /** A prefix pattern matches every string that literally starts with the prefix. */
  lemma {:induction false} LikeOwnPrefix(x: string, t: string)
    requires '\\' !in x
    ensures Like(x + t, x + "%")
    decreases |x|
  {
    if x == "" {
      assert x + t == t && x + "%" == "%";
      LikeAnything(t);
    } else {
      var s, p := x + t, x + "%";
      assert s[1..] == x[1..] + t && p[1..] == x[1..] + "%";
      LikeOwnPrefix(x[1..], t);
      if p[0] == '%' { assert Like(s[1..], p); }
    }
  }

  /** Without wildcards in the prefix, the pattern matches nothing else. */
  lemma {:induction false} LikePlainPrefix(s: string, x: string)
    requires forall c :: c in x ==> c != '%' && c != '_' && c != '\\'
    ensures Like(s, x + "%") <==> x <= s
    decreases |x|
  {
    var p := x + "%";
    if x == "" {
      assert p == "%";
      LikeAnything(s);
    } else if s != "" {
      assert p[1..] == x[1..] + "%";
      assert forall c :: c in x[1..] ==> c in x;
      LikePlainPrefix(s[1..], x[1..]);
      assert p[0] in x;
      assert x <= s <==> x[0] == s[0] && x[1..] <= s[1..];
    } else {
      assert p[0] in x;
    }
  }

  lemma {:induction false} ReplaceLength(s: string, x: string, y: string)
    ensures |y| >= |x| ==> |ReplaceAll(s, x, y)| >= |s|
    ensures |y| <= |x| ==> |ReplaceAll(s, x, y)| <= |s|
    decreases |s|
  {
    var i := IndexOf(s, x);
    if x != "" && i != -1 { ReplaceLength(s[i + |x|..], x, y); }
  }

  lemma DifferentMiddle(head: string, x: string, rest: string, y: string, rest2: string)
    requires x != y
    requires |y| > |x| ==> |rest2| >= |rest|
    requires |y| < |x| ==> |rest2| <= |rest|
    ensures head + y + rest2 != head + x + rest
  {
    var r, s := head + y + rest2, head + x + rest;
    if |y| == |x| { assert r[|head|..|head| + |x|] == y && s[|head|..|head| + |x|] == x; }
    else { assert |r| != |s|; }
  }

  lemma FoundChanges(s: string, x: string, y: string, i: nat)
    requires x != "" && x != y && OccursAt(s, x, i)
    ensures s[..i] + y + ReplaceAll(s[i + |x|..], x, y) != s
  {
    var rest := s[i + |x|..];
    ReplaceLength(rest, x, y);
    DifferentMiddle(s[..i], x, rest, y, ReplaceAll(rest, x, y));
    CutAt(s, x, i);
  }

  lemma ReplaceFirst(s: string, x: string, y: string, i: nat)
    requires x != "" && IndexOf(s, x) == i && i + |x| <= |s|
    ensures ReplaceAll(s, x, y) == s[..i] + y + ReplaceAll(s[i + |x|..], x, y)
  {
    hide OccursAt, IndexOf, IndexFrom;
  }

  /** A replacement that changes nothing had nothing to replace. */
  lemma ReplaceFixed(s: string, x: string, y: string)
    requires x != "" && x != y
    ensures ReplaceAll(s, x, y) == s <==> !Contains(s, x)
  {
    hide ReplaceAll;
    var i := IndexOf(s, x);
    if i == -1 {
      ReplaceAbsent(s, x, y);
    } else {
      assert OccursAt(s, x, i);
      FoundChanges(s, x, y, i);
      ReplaceFirst(s, x, y, i);
    }
  }

  lemma ReplaceAbsent(s: string, x: string, y: string)
    requires IndexOf(s, x) == -1
    ensures ReplaceAll(s, x, y) == s
  {
    hide OccursAt;
  }

  lemma {:induction false} ReplaceSelf(s: string, x: string)
    ensures ReplaceAll(s, x, x) == s
    decreases |s|
  {
    var i := IndexOf(s, x);
    if x != "" && i != -1 {
      ReplaceSelf(s[i + |x|..], x);
      assert s == s[..i] + x + s[i + |x|..];
    }
  }

  lemma ReplaceHead(x: string, t: string, y: string)
    requires x != ""
    ensures ReplaceAll(x + t, x, y) == y + ReplaceAll(t, x, y)
  {
    var s := x + t;
    assert OccursAt(s, x, 0) by { assert s[0..|x|] == x; }
    assert IndexOf(s, x) == 0;
    assert s[0 + |x|..] == t && s[..0] == "";
  }
}
