/** The text of the bulk path update, into which both paths are written between apostrophes,
    and how the database reads it back. */
module SqlStatement {
  import opened Wrappers
  import opened JsStrings

  const HEAD := "REPLACE(path, '"

  function ReplaceText(oldPrefix: string, newPrefix: string): string {
    HEAD + oldPrefix + "', '" + newPrefix + "')"
  }

  /** The rest of a string literal and what follows it: an apostrophe ends the literal, two in
      a row stand for one. */
  function ReadLiteral(t: string): Option<(string, string)> {
    if t == "" then None
    else if t[0] != '\'' then
      match ReadLiteral(t[1..]) case Some(p) => Some(([t[0]] + p.0, p.1)) case None => None
    else if |t| > 1 && t[1] == '\'' then
      match ReadLiteral(t[2..]) case Some(p) => Some(("'" + p.0, p.1)) case None => None
    else Some(("", t[1..]))
  }

  /** The two arguments of REPLACE, if the text has this form. */
  function ReadReplace(text: string): Option<(string, string)> {
    if !(HEAD <= text) then None else
    match ReadLiteral(text[|HEAD|..])
    case None => None
    case Some(first) =>
      if !(", '" <= first.1) then None else
      match ReadLiteral(first.1[3..])
      case None => None
      case Some(second) => if second.1 == ")" then Some((first.0, second.0)) else None
  }

  /** What the database replaces, and by what; None if it does not accept the statement. */
  function Statement(oldPrefix: string, newPrefix: string): Option<(string, string)> {
    ReadReplace(ReplaceText(oldPrefix, newPrefix))
  }

  lemma {:induction false} ReadPlain(o: string, tail: string)
    requires '\'' !in o && (tail == "" || tail[0] != '\'')
    ensures ReadLiteral(o + "'" + tail) == Some((o, tail))
    decreases |o|
  {
    var t := o + "'" + tail;
    if o == "" {
      assert t[1..] == tail;
    } else {
      assert t[1..] == o[1..] + "'" + tail;
      ReadPlain(o[1..], tail);
      assert [o[0]] + o[1..] == o;
    }
  }

  /** The number of apostrophes a string begins with. */
  function Lead(s: string): nat {
    if s != "" && s[0] == '\'' then 1 + Lead(s[1..]) else 0
  }

  /** A literal begins with at most half as many apostrophes as its text. */
  lemma {:induction false} LeadHalves(t: string)
    requires ReadLiteral(t).Some?
    ensures 2 * Lead(ReadLiteral(t).value.0) <= Lead(t)
    decreases |t|
  {
    if t[0] == '\'' && |t| > 1 && t[1] == '\'' {
      LeadHalves(t[2..]);
      var v := ReadLiteral(t[2..]).value.0;
      assert ("'" + v)[1..] == v;
      assert t[1..][1..] == t[2..];
    }
  }

  lemma {:induction false} LeadClosed(o: string, tail: string)
    requires tail == "" || tail[0] != '\''
    ensures Lead(o + "'" + tail) == if Lead(o) == |o| then |o| + 1 else Lead(o)
    decreases |o|
  {
    var t := o + "'" + tail;
    if o == "" {
      assert t[1..] == tail;
    } else {
      assert t[1..] == o[1..] + "'" + tail;
      LeadClosed(o[1..], tail);
    }
  }

  /** A string that is read back unchanged has no apostrophe. */
  lemma {:induction false} ReadOwn(o: string, tail: string)
    requires tail == "" || tail[0] != '\''
    requires ReadLiteral(o + "'" + tail).Some? && ReadLiteral(o + "'" + tail).value.0 == o
    ensures '\'' !in o
    decreases |o|
  {
    var t := o + "'" + tail;
    if o != "" {
      if o[0] != '\'' {
        assert t[1..] == o[1..] + "'" + tail;
        ReadOwn(o[1..], tail);
      } else {
        NoLeading(o, tail);
      }
    }
  }

  lemma NoLeading(o: string, tail: string)
    requires tail == "" || tail[0] != '\''
    requires o != "" && o[0] == '\''
    ensures ReadLiteral(o + "'" + tail).Some? ==> ReadLiteral(o + "'" + tail).value.0 != o
  {
    var t := o + "'" + tail;
    LeadClosed(o, tail);
    if ReadLiteral(t).Some? { LeadHalves(t); }
    if |o| == 1 { assert t[2..] == tail; }
  }

  lemma CutText(oldPrefix: string, newPrefix: string)
    ensures HEAD <= ReplaceText(oldPrefix, newPrefix)
    ensures ReplaceText(oldPrefix, newPrefix)[|HEAD|..] == oldPrefix + "'" + (", '" + newPrefix + "')")
    ensures (", '" + newPrefix + "')")[3..] == newPrefix + "'" + ")"
  {}

  /** The statement means what was intended iff neither path has an apostrophe. */
  lemma StatementExact(oldPrefix: string, newPrefix: string)
    ensures Statement(oldPrefix, newPrefix) == Some((oldPrefix, newPrefix)) <==> '\'' !in oldPrefix && '\'' !in newPrefix
  {
    CutText(oldPrefix, newPrefix);
    var rest := ", '" + newPrefix + "')";
    if '\'' !in oldPrefix {
      ReadPlain(oldPrefix, rest);
      if '\'' !in newPrefix { ReadPlain(newPrefix, ")"); }
    }
    if Statement(oldPrefix, newPrefix) == Some((oldPrefix, newPrefix)) {
      ReadOwn(oldPrefix, rest);
      ReadPlain(oldPrefix, rest);
      ReadOwn(newPrefix, ")");
    }
  }

  /** What is replaced begins as the old path does. */
  lemma StatementHead(oldPrefix: string, newPrefix: string)
    requires oldPrefix != "" && oldPrefix[0] != '\'' && Statement(oldPrefix, newPrefix).Some?
    ensures Statement(oldPrefix, newPrefix).value.0 != ""
  {
    CutText(oldPrefix, newPrefix);
  }

  // ------------------------------------------------------------------ doubled and single apostrophes

  function Doubled(s: string): string {
    if s == "" then "" else (if s[0] == '\'' then "''" else [s[0]]) + Doubled(s[1..])
  }

  lemma {:induction false} ReadDoubled(o: string, tail: string)
    requires tail == "" || tail[0] != '\''
    ensures ReadLiteral(Doubled(o) + "'" + tail) == Some((o, tail))
    decreases |o|
  {
    var t := Doubled(o) + "'" + tail;
    if o == "" {
      assert t[1..] == tail;
    } else {
      ReadDoubled(o[1..], tail);
      assert [o[0]] + o[1..] == o;
      var rest := Doubled(o[1..]) + "'" + tail;
      if o[0] == '\'' { assert t[2..] == rest; } else { assert t[1..] == rest; }
    }
  }

  /** Writing every apostrophe twice would make the statement mean what is intended, for all
      paths. */
  lemma DoublingSuffices(oldPrefix: string, newPrefix: string)
    ensures Statement(Doubled(oldPrefix), Doubled(newPrefix)) == Some((oldPrefix, newPrefix))
  {
    CutText(Doubled(oldPrefix), Doubled(newPrefix));
    ReadDoubled(oldPrefix, ", '" + Doubled(newPrefix) + "')");
    ReadDoubled(newPrefix, ")");
  }

  lemma {:induction false} ReadPrefix(u: string, t: string)
    requires '\'' !in u
    ensures ReadLiteral(u + t) == match ReadLiteral(t) case Some(p) => Some((u + p.0, p.1)) case None => None
    decreases |u|
  {
    if u == "" {
      assert u + t == t;
      assert ReadLiteral(t).Some? ==> "" + ReadLiteral(t).value.0 == ReadLiteral(t).value.0;
    } else {
      assert (u + t)[1..] == u[1..] + t;
      ReadPrefix(u[1..], t);
      if ReadLiteral(t).Some? {
        var v := ReadLiteral(t).value.0;
        assert [u[0]] + (u[1..] + v) == u + v;
      }
    }
  }

  lemma ReadPair(t: string)
    ensures ReadLiteral("''" + t) == match ReadLiteral(t) case Some(p) => Some(("'" + p.0, p.1)) case None => None
  {
    assert ("''" + t)[2..] == t;
  }

  /** A single apostrophe in the old path: the statement is not accepted. */
  lemma OldSingleFails(u: string, w: string, newPrefix: string)
    requires '\'' !in u && '\'' !in w && newPrefix != "" && newPrefix[0] == '/'
    ensures Statement(u + "'" + w, newPrefix).None?
  {
    CutText(u + "'" + w, newPrefix);
    var rest := ", '" + newPrefix + "')";
    var after := newPrefix + "')";
    assert rest == ", " + "'" + after;
    ReadPlain(", ", after);
    if w == "" {
      assert u + "'" + w + "'" + rest == u + ("''" + rest);
      ReadPrefix(u, "''" + rest);
      ReadPair(rest);
    } else {
      assert u + "'" + w + "'" + rest == u + "'" + (w + "'" + rest);
      ReadPlain(u, w + "'" + rest);
      SecondUnread(w, rest, after);
    }
  }

  /** What follows the apostrophe is no separator, or the literal behind it is not the last. */
  lemma SecondUnread(w: string, rest: string, after: string)
    requires '\'' !in w && w != "" && ReadLiteral(rest) == Some((", ", after))
    ensures var s := w + "'" + rest;
            ", '" <= s ==> ReadLiteral(s[3..]) == Some((", ", after))
  {
    var s := w + "'" + rest;
    if ", '" <= s {
      assert s[0] == ',' && s[1] == ' ' && s[2] == '\'';
      assert |w| == 2;
      assert s[3..] == rest;
    }
  }

  /** A single apostrophe in the new path only: neither. */
  lemma NewSingleFails(oldPrefix: string, u: string, w: string)
    requires '\'' !in oldPrefix && '\'' !in u && '\'' !in w
    ensures Statement(oldPrefix, u + "'" + w).None?
  {
    CutText(oldPrefix, u + "'" + w);
    ReadPlain(oldPrefix, ", '" + (u + "'" + w) + "')");
    var text := u + "'" + w + "'" + ")";
    if w == "" {
      assert text == u + ("''" + ")");
      ReadPrefix(u, "''" + ")");
      ReadPair(")");
      assert ")"[1..] == "";
    } else {
      assert text == u + "'" + (w + "'" + ")");
      ReadPlain(u, w + "'" + ")");
    }
  }
}
