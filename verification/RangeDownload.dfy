/** Range requests: reading the header, and serving a byte range straight from the parts of
    an upload that is still being merged. */
module RangeDownload {
  import opened Wrappers
  import opened JsStrings
  import opened MultipartImage
  import opened MultipartUpload

  datatype RangeInfo = RangeInfo(start: int, end: int)

  // ------------------------------------------------------------------ the header

  predicate IsDigit(c: char) { '0' <= c <= '9' }

  predicate Digits(s: string) { s != "" && forall i :: 0 <= i < |s| ==> IsDigit(s[i]) }

  function LeadingDigits(s: string): string {
    if s != "" && IsDigit(s[0]) then [s[0]] + LeadingDigits(s[1..]) else ""
  }

  function Value(ds: string): nat
    requires forall i :: 0 <= i < |ds| ==> IsDigit(ds[i])
  {
    if ds == "" then 0
    else
      assert IsDigit(ds[|ds| - 1]);
      10 * Value(ds[..|ds| - 1]) + (ds[|ds| - 1] as int - '0' as int)
  }

  lemma LeadingDigitsAre(s: string)
    ensures forall i :: 0 <= i < |LeadingDigits(s)| ==> IsDigit(LeadingDigits(s)[i])
  {}

  /** `parseInt(s, 10)` on a string without a minus sign; None is NaN. */
  function ParseInt(s: string): Option<nat> {
    var t := TrimStart(s);
    var u := if t != "" && t[0] == '+' then t[1..] else t;
    LeadingDigitsAre(u);
    if LeadingDigits(u) == "" then None else Some(Value(LeadingDigits(u)))
  }

  const UNIT := "bytes="

  function ParseRangeHeader(header: Option<string>, fileSize: nat): Option<RangeInfo> {
    if header.None? || !(UNIT <= header.value) then None else
    var spec := header.value[6..];
    if IndexOf(spec, ",") != -1 then None else
    var pieces := Split(spec, "-");
    if |pieces| < 2 then None   // parseInt(undefined) is NaN
    else FromPieces(pieces[0], pieces[1], fileSize)
  }

  /** The three forms, told apart by which piece is empty. */
  function FromPieces(startStr: string, endStr: string, fileSize: nat): Option<RangeInfo> {
    if startStr == "" && endStr != "" then
      var suffixLength := ParseInt(endStr);
      if suffixLength.None? || suffixLength.value <= 0 then None
      else Checked(if fileSize >= suffixLength.value then fileSize - suffixLength.value else 0, fileSize - 1, fileSize)
    else if startStr != "" && endStr == "" then
      var start := ParseInt(startStr);
      if start.None? then None else Checked(start.value, fileSize - 1, fileSize)
    else if startStr != "" && endStr != "" then
      var start, end := ParseInt(startStr), ParseInt(endStr);
      if start.None? || end.None? then None else Checked(start.value, end.value, fileSize)
    else None
  }

  /** The final range checks and the adjustment of the end. */
  function Checked(start: int, end: int, fileSize: nat): Option<RangeInfo> {
    if start > end then None
    else if start >= fileSize then None
    else Some(RangeInfo(start, if end >= fileSize then fileSize - 1 else end))
  }

  /** Every accepted header gives a range inside the file. */
  lemma AcceptedInside(header: Option<string>, fileSize: nat)
    requires ParseRangeHeader(header, fileSize).Some?
    ensures var r := ParseRangeHeader(header, fileSize).value; 0 <= r.start <= r.end < fileSize
  {}

  lemma {:induction false} AllLeading(s: string)
    requires forall i :: 0 <= i < |s| ==> IsDigit(s[i])
    ensures LeadingDigits(s) == s
  {
    if s != "" { AllLeading(s[1..]); }
  }

  lemma ParseDigits(s: string)
    requires Digits(s)
    ensures ParseInt(s) == Some(Value(s))
  {
    AllLeading(s);
    assert IsDigit(s[0]);
  }

  /** The text begins, behind white space and a plus sign that may be there, with these
      digits and no more of them. */
  predicate Reads(s: string, blank: string, sign: string, ds: string, rest: string) {
    && s == blank + (sign + (ds + rest)) && Blank(blank) && (sign == "" || sign == "+")
    && Digits(ds) && (rest == "" || !IsDigit(rest[0]))
  }

  lemma {:induction false} TrimBlank(blank: string, s: string)
    requires Blank(blank) && s != "" && !IsSpace(s[0])
    ensures TrimStart(blank + s) == s
  {
    if blank != "" {
      assert IsSpace(blank[0]) && (blank + s)[1..] == blank[1..] + s;
      TrimBlank(blank[1..], s);
    } else {
      assert blank + s == s;
    }
  }

  lemma {:induction false} LeadingAre(ds: string, rest: string)
    requires (forall i :: 0 <= i < |ds| ==> IsDigit(ds[i])) && (rest == "" || !IsDigit(rest[0]))
    ensures LeadingDigits(ds + rest) == ds
  {
    if ds != "" {
      assert (ds + rest)[1..] == ds[1..] + rest;
      LeadingAre(ds[1..], rest);
    } else {
      assert ds + rest == rest;
    }
  }

  lemma {:induction false} LeadingRest(s: string) returns (rest: string)
    ensures s == LeadingDigits(s) + rest && (rest == "" || !IsDigit(rest[0]))
  {
    if s != "" && IsDigit(s[0]) {
      rest := LeadingRest(s[1..]);
      assert s == [s[0]] + s[1..];
    } else {
      rest := s;
    }
  }

  lemma ReadsParse(s: string, blank: string, sign: string, ds: string, rest: string)
    requires Reads(s, blank, sign, ds, rest)
    ensures ParseInt(s) == Some(Value(ds))
  {
    var u := ds + rest;
    assert u[0] == ds[0] && IsDigit(ds[0]);
    LeadingAre(ds, rest);
    assert sign + u == if sign == "" then u else ['+'] + u;
    TrimBlank(blank, sign + u);
    assert sign == "+" ==> (sign + u)[1..] == u;
  }

  /** `parseInt` reads the number at the front of a text, or nothing if there is none. */
  lemma ParseIntExact(s: string, n: nat)
    ensures ParseInt(s) == Some(n) <==> exists blank, sign, ds, rest :: Reads(s, blank, sign, ds, rest) && Value(ds) == n
  {
    if ParseInt(s) == Some(n) {
      var blank := TrimStartExact(s);
      var t := TrimStart(s);
      var sign, u := if t != "" && t[0] == '+' then "+" else "", if t != "" && t[0] == '+' then t[1..] else t;
      LeadingDigitsAre(u);
      var rest := LeadingRest(u);
      assert t == sign + u;
      assert Reads(s, blank, sign, LeadingDigits(u), rest);
    }
    if blank, sign, ds, rest :| Reads(s, blank, sign, ds, rest) && Value(ds) == n { ReadsParse(s, blank, sign, ds, rest); }
  }

  lemma FirstPieces(a: string, b: string, rest: string)
    requires '-' !in a && '-' !in b && (rest == "" || rest[0] == '-')
    ensures var pieces := Split(a + "-" + (b + rest), "-"); |pieces| >= 2 && pieces[..2] == [a, b]
  {
    var s, tail := a + "-" + (b + rest), b + rest;
    forall k | k <= |a| ensures OccursAt(s, "-", k) <==> k == |a| { CharAt(s, '-', k); }
    FirstIndex(s, "-", |a|);
    assert s[..|a|] == a && s[|a| + 1..] == tail;
    if rest == "" {
      forall k ensures !OccursAt(tail, "-", k) { CharAt(tail, '-', k); }
      assert tail == b;
    } else {
      forall k | k <= |b| ensures OccursAt(tail, "-", k) <==> k == |b| { CharAt(tail, '-', k); }
      FirstIndex(tail, "-", |b|);
      assert tail[..|b|] == b;
    }
  }

  /** A header of another unit, of several ranges, or without a dash is refused. */
  lemma HeaderRefused(spec: string, fileSize: nat)
    requires ',' in spec || '-' !in spec
    ensures ParseRangeHeader(Some(UNIT + spec), fileSize).None?
    ensures forall header: string :: !(UNIT <= header) ==> ParseRangeHeader(Some(header), fileSize).None?
  {
    assert (UNIT + spec)[6..] == spec;
    if ',' in spec {
      var k :| 0 <= k < |spec| && spec[k] == ',';
      CharAt(spec, ',', k);
    } else {
      forall k ensures !OccursAt(spec, "-", k) { CharAt(spec, '-', k); }
    }
  }

  lemma HeaderPieces(a: string, b: string, rest: string, fileSize: nat)
    requires '-' !in a && '-' !in b && (rest == "" || rest[0] == '-') && ',' !in a + b + rest
    ensures ParseRangeHeader(Some(UNIT + (a + "-" + (b + rest))), fileSize) == FromPieces(a, b, fileSize)
  {
    FirstPieces(a, b, rest);
    var spec := a + "-" + (b + rest);
    assert (UNIT + spec)[6..] == spec && UNIT <= UNIT + spec;
    forall k ensures !OccursAt(spec, ",", k) { CharAt(spec, ',', k); }
    hide FromPieces, Split;
  }

  /** Every other header is read by its first two pieces, as the numbers in front of them. */
  lemma HeaderExact(a: string, b: string, rest: string, fileSize: nat)
    requires '-' !in a && '-' !in b && (rest == "" || rest[0] == '-') && ',' !in a + b + rest
    ensures var first, last := ParseInt(a), ParseInt(b);
            ParseRangeHeader(Some(UNIT + (a + "-" + (b + rest))), fileSize) ==
            if a != "" && b != "" then
              if first.Some? && last.Some? && first.value <= last.value && first.value < fileSize
              then Some(RangeInfo(first.value, Min(last.value, fileSize - 1))) else None
            else if a != "" then
              if first.Some? && first.value < fileSize then Some(RangeInfo(first.value, fileSize - 1)) else None
            else if b != "" then
              if last.Some? && last.value > 0 && fileSize > 0
              then Some(RangeInfo(if last.value >= fileSize then 0 else fileSize - last.value, fileSize - 1)) else None
            else None
  {
    HeaderPieces(a, b, rest, fileSize);
    hide ParseInt, ParseRangeHeader;
  }

  /** A piece of a range: empty or all digits. */
  predicate Piece(s: string) { s == "" || Digits(s) }

  /** The three forms of section 2.1 of RFC 7233 get exactly the meaning given there: first
      and last position, from a position on, and the last so many bytes; a range that starts
      beyond the file, ends before it starts, or asks for no bytes is refused. */
  lemma RangeForms(a: string, b: string, fileSize: nat)
    requires Piece(a) && Piece(b)
    ensures ParseRangeHeader(Some(UNIT + (a + "-" + b)), fileSize) ==
            if a != "" && b != "" then
              if Value(a) <= Value(b) && Value(a) < fileSize
              then Some(RangeInfo(Value(a), Min(Value(b), fileSize - 1))) else None
            else if a != "" then
              if Value(a) < fileSize then Some(RangeInfo(Value(a), fileSize - 1)) else None
            else if b != "" then
              if Value(b) > 0 && fileSize > 0
              then Some(RangeInfo(if Value(b) >= fileSize then 0 else fileSize - Value(b), fileSize - 1)) else None
            else None
  {
    HeaderExact(a, b, "", fileSize);
    assert b + "" == b;
    if a != "" { ParseDigits(a); }
    if b != "" { ParseDigits(b); }
    hide ParseRangeHeader, ParseInt;
  }

  /** Decimal notation, as template literals print a number. */
  function Decimal(n: nat): (s: string)
    ensures Digits(s)
    ensures Value(s) == n
  {
    var d := ('0' as int + n % 10) as char;
    if n < 10 then
      assert [d][..0] == "";
      [d]
    else
      var s := Decimal(n / 10) + [d];
      assert s[..|s| - 1] == Decimal(n / 10);
      s
  }

  function FormatContentRange(start: nat, end: nat, total: nat): string {
    "bytes " + Decimal(start) + "-" + Decimal(end) + "/" + Decimal(total)
  }

  lemma NotSooner(a: string, b: string, a2: string, b2: string, c: char)
    requires c !in a2 && a + [c] + b == a2 + [c] + b2
    ensures |a2| <= |a|
  {
    var s := a + [c] + b;
    forall k | 0 <= k < |a2| ensures s[k] != c { assert (a2 + [c] + b2)[k] == a2[k]; }
    assert s[|a|] == c;
  }

  /** Texts cut at the first occurrence of one character are cut alike. */
  lemma SameCutAt(a: string, b: string, a2: string, b2: string, c: char)
    requires c !in a && c !in a2
    ensures a + [c] + b == a2 + [c] + b2 <==> a == a2 && b == b2
  {
    var s, s2 := a + [c] + b, a2 + [c] + b2;
    if s == s2 {
      NotSooner(a, b, a2, b2, c);
      NotSooner(a2, b2, a, b, c);
      assert s[..|a|] == a && s2[..|a2|] == a2 && s[|a| + 1..] == b && s2[|a2| + 1..] == b2;
    }
  }

  lemma DecimalInjective(m: nat, n: nat)
    ensures Decimal(m) == Decimal(n) <==> m == n
    ensures '-' !in Decimal(n) && '/' !in Decimal(n)
  {
    assert Value(Decimal(m)) == m && Value(Decimal(n)) == n;
  }

  /** The Content-Range text (section 4.2 of RFC 7233) determines first and last position and
      the length. */
  lemma ContentRangeExact(start: nat, end: nat, total: nat, start2: nat, end2: nat, total2: nat)
    ensures FormatContentRange(start, end, total) == FormatContentRange(start2, end2, total2)
            <==> start == start2 && end == end2 && total == total2
  {
    DecimalInjective(start2, start);
    DecimalInjective(start, start2);
    DecimalInjective(end2, end);
    DecimalInjective(end, end2);
    DecimalInjective(total, total2);
    hide Decimal;
    var tail, tail2 := Decimal(end) + "/" + Decimal(total), Decimal(end2) + "/" + Decimal(total2);
    var body, body2 := Decimal(start) + "-" + tail, Decimal(start2) + "-" + tail2;
    SameCutAt(Decimal(start), tail, Decimal(start2), tail2, '-');
    SameCutAt(Decimal(end), Decimal(total), Decimal(end2), Decimal(total2), '/');
    ContentRangeText(start, end, total);
    ContentRangeText(start2, end2, total2);
    assert ("bytes " + body)[6..] == body && ("bytes " + body2)[6..] == body2;
  }

  lemma ContentRangeText(start: nat, end: nat, total: nat)
    ensures FormatContentRange(start, end, total) == "bytes " + (Decimal(start) + "-" + (Decimal(end) + "/" + Decimal(total)))
  {
    hide Decimal;
  }

  /** A range written in decimal is read back unchanged exactly when it lies in the file. */
  lemma RangeRoundTrip(start: nat, end: nat, fileSize: nat)
    ensures ParseRangeHeader(Some(UNIT + (Decimal(start) + "-" + Decimal(end))), fileSize) == Some(RangeInfo(start, end))
            <==> start <= end < fileSize
  {
    RangeForms(Decimal(start), Decimal(end), fileSize);
  }

  // ------------------------------------------------------------------ reading from parts

  /** A ranged read of one stored part, both ends included; the stream fails when the start
      lies after the end, and stops at the end of the data. */
  function ReadRange(data: seq<byte>, start: nat, end: int): Option<seq<byte>>
  {
    if start > end then None else Some(data[Min(start, |data|)..Min(end + 1, |data|)])
  }

  function AtLeastZero(a: int): nat { if a > 0 then a else 0 }

  /** The stretch asked of a part recorded with this size whose bytes are taken to begin at
      offset. */
  function PieceOf(data: seq<byte>, size: int, offset: int, r: RangeInfo): Option<seq<byte>> {
    ReadRange(data, AtLeastZero(r.start - offset), Min(r.end - offset, size - 1))
  }

  /** What part k adds; `have` is its recorded size, or None for a part without object key,
      which is skipped. */
  function PartBytes(ds: seq<seq<byte>>, have: seq<Option<nat>>, partSize: nat, r: RangeInfo, k: nat): Option<seq<byte>>
    requires |have| == |ds| && k < |ds|
  {
    if have[k].None? then Some([]) else PieceOf(ds[k], have[k].value, k * partSize, r)
  }

  /** Parts lo..hi piped in order; None when a part stream fails. */
  function Emit(ds: seq<seq<byte>>, have: seq<Option<nat>>, partSize: nat, r: RangeInfo, lo: nat, hi: nat): Option<seq<byte>>
    requires |have| == |ds| && hi <= |ds|
    decreases hi
  {
    if hi <= lo then Some([])
    else
      var before, last := Emit(ds, have, partSize, r, lo, hi - 1), PartBytes(ds, have, partSize, r, hi - 1);
      if before.Some? && last.Some? then Some(before.value + last.value) else None
  }

  /** downloadFromPartsWithRange */
  function RangeOfParts(ds: seq<seq<byte>>, have: seq<Option<nat>>, partSize: nat, r: RangeInfo): Option<seq<byte>>
    requires |have| == |ds| && partSize > 0 && 0 <= r.start && 0 <= r.end
  {
    Emit(ds, have, partSize, r, Min(r.start / partSize, |ds|), Min(r.end / partSize + 1, |ds|))
  }

  /** Every non-empty part begins at its index times the part size, is no longer than that,
      and is recorded with at least its length. */
  predicate PartFits(lens: seq<nat>, have: seq<Option<nat>>, partSize: nat, i: nat)
    requires |have| == |lens| && i < |lens|
  {
    lens[i] > 0 ==> have[i].Some? && Sum(lens[..i]) == i * partSize && lens[i] <= partSize && lens[i] <= have[i].value
  }

  predicate PartsFit(lens: seq<nat>, have: seq<Option<nat>>, partSize: nat)
    requires |have| == |lens|
  {
    forall i :: 0 <= i < |lens| ==> PartFits(lens, have, partSize, i)
  }

  /** The range asked for, of the concatenated parts. */
  function Wanted(ds: seq<seq<byte>>, r: RangeInfo): seq<byte>
    requires 0 <= r.start <= r.end < |Concat(ds)|
  {
    Concat(ds)[r.start..r.end + 1]
  }

  ghost predicate AlwaysServed(lens: seq<nat>, have: seq<Option<nat>>, partSize: nat)
    requires |have| == |lens| && partSize > 0
  {
    forall ds: seq<seq<byte>>, r: RangeInfo {:trigger RangeOfParts(ds, have, partSize, r)} ::
      SameLengths(ds, lens) && 0 <= r.start <= r.end < |Concat(ds)| ==>
        RangeOfParts(ds, have, partSize, r) == Some(Wanted(ds, r))
  }

  /** The part that holds position x. */
  lemma {:induction false} PartOf(lens: seq<nat>, n: nat, x: nat) returns (i: nat)
    requires n <= |lens| && x < Sum(lens[..n])
    ensures i < n && Sum(lens[..i]) <= x < Sum(lens[..i]) + lens[i]
    decreases n
  {
    assert lens[..0] == [];
    assert lens[..n][..n - 1] == lens[..n - 1];
    if x < Sum(lens[..n - 1]) { i := PartOf(lens, n - 1, x); } else { i := n - 1; }
  }

  lemma SumStep(lens: seq<nat>, i: nat)
    requires i < |lens|
    ensures Sum(lens[..i + 1]) == Sum(lens[..i]) + lens[i]
  {
    assert lens[..i + 1][..i] == lens[..i];
  }

  lemma Spread(a: nat, b: nat, m: nat)
    requires a < b
    ensures a * m + m <= b * m
  {
    assert b * m == a * m + (b - a) * m;
    assert (b - a) * m == m + (b - a - 1) * m;
  }

  lemma QuotientIs(x: nat, i: nat, m: nat)
    requires m > 0 && i * m <= x < i * m + m
    ensures x / m == i && x % m == x - i * m
  {
    var q, rest := x / m, x % m;
    assert x == q * m + rest;
    if q < i { Spread(q, i, m); }
    if i < q { Spread(i, q, m); }
  }

  lemma BlockAt(ds: seq<seq<byte>>, lens: seq<nat>, i: nat)
    requires SameLengths(ds, lens) && i < |ds|
    ensures Sum(lens[..i]) + lens[i] <= |Concat(ds)|
    ensures ds[i] == Concat(ds)[Sum(lens[..i])..Sum(lens[..i]) + lens[i]]
  {
    StartIsSum(ds, lens, i);
    StartIsSum(ds, lens, i + 1);
    SumStep(lens, i);
    Stretch(ds, i, i + 1);
    assert ds[i..i + 1] == [ds[i]];
    ConcatOne(ds[i]);
  }

  /** A part before the last touched one is full, so the next begins right after it. */
  lemma {:induction false} FullBefore(lens: seq<nat>, have: seq<Option<nat>>, partSize: nat, last: nat, i: nat)
    requires |have| == |lens| && PartsFit(lens, have, partSize) && partSize > 0
    requires i <= last < |lens| && lens[last] > 0
    ensures lens[i] > 0 && Sum(lens[..i]) == i * partSize
    decreases last - i
  {
    if i == last {
      assert PartFits(lens, have, partSize, i);
    } else {
      FullBefore(lens, have, partSize, last, i + 1);
      SumStep(lens, i);
      assert (i + 1) * partSize == i * partSize + partSize;
      assert PartFits(lens, have, partSize, i);
      if lens[i] == 0 { EmptyNot(lens, have, partSize, i); }
    }
  }

  /** An empty part cannot stand before a part that begins one part size later. */
  lemma {:induction false} EmptyNot(lens: seq<nat>, have: seq<Option<nat>>, partSize: nat, i: nat)
    requires |have| == |lens| && PartsFit(lens, have, partSize) && partSize > 0 && i < |lens|
    ensures Sum(lens[..i]) <= i * partSize
    decreases i
  {
    if i == 0 {
      assert lens[..0] == [];
    } else {
      EmptyNot(lens, have, partSize, i - 1);
      SumStep(lens, i - 1);
      assert PartFits(lens, have, partSize, i - 1);
      assert i * partSize == (i - 1) * partSize + partSize;
    }
  }

  /** A part in place adds the stretch of the range that falls into it. */
  lemma PieceServed(whole: seq<byte>, data: seq<byte>, size: int, offset: nat, r: RangeInfo)
    requires 0 < |data| <= size && offset + |data| <= |whole| && data == whole[offset..offset + |data|]
    requires 0 <= r.start <= r.end && r.start < offset + |data| && offset <= r.end
    ensures offset + AtLeastZero(r.start - offset) <= Min(r.end + 1, offset + |data|)
    ensures PieceOf(data, size, offset, r)
            == Some(whole[offset + AtLeastZero(r.start - offset)..Min(r.end + 1, offset + |data|)])
  {
    var s, e := AtLeastZero(r.start - offset), Min(r.end - offset, size - 1);
    var t := Min(e + 1, |data|);
    assert s < |data| && s <= e && offset + t == Min(r.end + 1, offset + |data|);
    forall x | 0 <= x < t - s ensures data[s..t][x] == whole[offset + s..offset + t][x] {
      assert data[s..t][x] == data[s + x] && whole[offset + s..offset + t][x] == whole[offset + (s + x)];
    }
    assert data[s..t] == whole[offset + s..offset + t];
  }

  /** Where part k lies when both ends of the range are known to lie in parts lo and last. */
  lemma Reach(lens: seq<nat>, have: seq<Option<nat>>, partSize: nat, r: RangeInfo, lo: nat, last: nat, k: nat)
    requires |have| == |lens| && PartsFit(lens, have, partSize) && partSize > 0
    requires lo <= k <= last < |lens| && lens[last] > 0
    requires Sum(lens[..lo]) <= r.start < Sum(lens[..lo]) + lens[lo]
    requires Sum(lens[..last]) <= r.end < Sum(lens[..last]) + lens[last]
    ensures have[k].Some? && 0 < lens[k] <= have[k].value
    ensures Sum(lens[..k]) == k * partSize && Sum(lens[..k + 1]) == Sum(lens[..k]) + lens[k]
    ensures Sum(lens[..k]) <= r.end && r.start < Sum(lens[..k + 1])
    ensures lo < k ==> r.start < Sum(lens[..k])
    ensures lo == k ==> Sum(lens[..k]) <= r.start
  {
    FullBefore(lens, have, partSize, last, k);
    assert PartFits(lens, have, partSize, k);
    SumStep(lens, k);
    SumStep(lens, lo);
    if lo < k { SumMonotone(lens, lo + 1, k); }
    SumMonotone(lens, k, last);
  }

  lemma EmitNext(ds: seq<seq<byte>>, have: seq<Option<nat>>, partSize: nat, r: RangeInfo, lo: nat, hi: nat, before: seq<byte>, here: seq<byte>)
    requires |have| == |ds| && lo < hi <= |ds|
    requires Emit(ds, have, partSize, r, lo, hi - 1) == Some(before) && PartBytes(ds, have, partSize, r, hi - 1) == Some(here)
    ensures Emit(ds, have, partSize, r, lo, hi) == Some(before + here)
  {}

  /** What part hi - 1 adds, as a stretch of the concatenation. */
  lemma PartAdds(ds: seq<seq<byte>>, lens: seq<nat>, have: seq<Option<nat>>, partSize: nat, r: RangeInfo, lo: nat, last: nat, hi: nat)
    requires SameLengths(ds, lens) && |have| == |lens| && PartsFit(lens, have, partSize) && partSize > 0
    requires 0 <= r.start <= r.end < |Concat(ds)|
    requires lo < hi <= last + 1 <= |ds| && lens[last] > 0
    requires Sum(lens[..lo]) <= r.start < Sum(lens[..lo]) + lens[lo]
    requires Sum(lens[..last]) <= r.end < Sum(lens[..last]) + lens[last]
    ensures var from, stop := if hi == lo + 1 then r.start else Sum(lens[..hi - 1]), Min(r.end + 1, Sum(lens[..hi]));
            r.start <= from <= stop <= |Concat(ds)|
            && PartBytes(ds, have, partSize, r, hi - 1) == Some(Concat(ds)[from..stop])
    ensures hi > lo + 1 ==> Min(r.end + 1, Sum(lens[..hi - 1])) == Sum(lens[..hi - 1])
    ensures Sum(lens[..hi]) <= |Concat(ds)|
  {
    var k := hi - 1;
    assert k + 1 == hi;
    Reach(lens, have, partSize, r, lo, last, k);
    BlockAt(ds, lens, k);
    PieceServed(Concat(ds), ds[k], have[k].value, Sum(lens[..k]), r);
  }

  lemma Adjacent(whole: seq<byte>, a: nat, b: nat, c: nat)
    requires a <= b <= c <= |whole|
    ensures whole[a..b] + whole[b..c] == whole[a..c]
  {}

  lemma {:induction false} EmitFits(ds: seq<seq<byte>>, lens: seq<nat>, have: seq<Option<nat>>, partSize: nat, r: RangeInfo, lo: nat, last: nat, hi: nat)
    requires SameLengths(ds, lens) && |have| == |lens| && PartsFit(lens, have, partSize) && partSize > 0
    requires 0 <= r.start <= r.end < |Concat(ds)|
    requires lo < hi <= last + 1 <= |ds| && lens[last] > 0
    requires Sum(lens[..lo]) <= r.start < Sum(lens[..lo]) + lens[lo]
    requires Sum(lens[..last]) <= r.end < Sum(lens[..last]) + lens[last]
    ensures Sum(lens[..hi]) <= |Concat(ds)| && r.start <= Min(r.end + 1, Sum(lens[..hi]))
    ensures Emit(ds, have, partSize, r, lo, hi) == Some(Concat(ds)[r.start..Min(r.end + 1, Sum(lens[..hi]))])
    decreases hi
  {
    var whole, stop := Concat(ds), Min(r.end + 1, Sum(lens[..hi]));
    PartAdds(ds, lens, have, partSize, r, lo, last, hi);
    if hi == lo + 1 {
      assert whole[r.start..r.start] == [];
      EmitNext(ds, have, partSize, r, lo, hi, whole[r.start..r.start], whole[r.start..stop]);
      Adjacent(whole, r.start, r.start, stop);
    } else {
      EmitFits(ds, lens, have, partSize, r, lo, last, hi - 1);
      var offset := Sum(lens[..hi - 1]);
      EmitNext(ds, have, partSize, r, lo, hi, whole[r.start..offset], whole[offset..stop]);
      Adjacent(whole, r.start, offset, stop);
    }
  }

  lemma FitsServed(ds: seq<seq<byte>>, lens: seq<nat>, have: seq<Option<nat>>, partSize: nat, r: RangeInfo)
    requires SameLengths(ds, lens) && |have| == |lens| && PartsFit(lens, have, partSize) && partSize > 0
    requires 0 <= r.start <= r.end < |Concat(ds)|
    ensures RangeOfParts(ds, have, partSize, r) == Some(Wanted(ds, r))
  {
    ConcatLength(ds, lens);
    assert lens[..|lens|] == lens;
    var lo := PartOf(lens, |lens|, r.start);
    var last := PartOf(lens, |lens|, r.end);
    assert PartFits(lens, have, partSize, lo) && PartFits(lens, have, partSize, last);
    QuotientIs(r.start, lo, partSize);
    QuotientIs(r.end, last, partSize);
    if lo > last { SumStep(lens, last); SumMonotone(lens, last + 1, lo); }
    EmitFits(ds, lens, have, partSize, r, lo, last, last + 1);
    SumStep(lens, last);
  }

  /** A single position served from the wrong place is wrong for some content. */
  lemma PositionForced(lens: seq<nat>, have: seq<Option<nat>>, partSize: nat, i: nat, d: nat)
    requires |have| == |lens| && partSize > 0 && AlwaysServed(lens, have, partSize)
    requires i < |lens| && d < lens[i]
    ensures have[i].Some? && Sum(lens[..i]) + d == i * partSize + d && d < partSize && d < have[i].value
  {
    var p := Sum(lens[..i]) + d;
    QuotientRest(p, partSize);
    PlaceForced(lens, have, partSize, i, d, p / partSize, p % partSize);
  }

  lemma PlaceForced(lens: seq<nat>, have: seq<Option<nat>>, partSize: nat, i: nat, d: nat, k: nat, q: nat)
    requires |have| == |lens| && partSize > 0 && AlwaysServed(lens, have, partSize)
    requires i < |lens| && d < lens[i]
    requires k == (Sum(lens[..i]) + d) / partSize && Sum(lens[..i]) + d == k * partSize + q
    ensures i == k && d == q && have[i].Some? && d < have[i].value
  {
    var p := Sum(lens[..i]) + d;
    SumStep(lens, i);
    SumMonotone(lens, i + 1, |lens|);
    assert lens[..|lens|] == lens;
    MarkPlace(lens, have, partSize, p, k, q, k * partSize);
    SamePlace(lens, i, d, k, q);
  }

  /** The part that brings the marked byte holds it. */
  lemma MarkPlace(lens: seq<nat>, have: seq<Option<nat>>, partSize: nat, p: nat, k: nat, q: nat, offset: nat)
    requires |have| == |lens| && partSize > 0 && AlwaysServed(lens, have, partSize)
    requires p < Sum(lens) && k == p / partSize && offset == k * partSize && p == offset + q
    ensures k < |lens| && q < lens[k] && have[k].Some? && q < have[k].value && Sum(lens[..k]) + q == p
  {
    CutParts(Marked(Sum(lens), p), lens);
    var ds := Cut(Marked(Sum(lens), p), lens);
    MarkServed(ds, lens, have, partSize, p, k, offset);
    MarkFound(ds, lens, have[k].value, p, k, q, offset);
  }

  lemma QuotientRest(p: nat, m: nat)
    requires m > 0
    ensures p == (p / m) * m + p % m
  {}

  lemma MarkServed(ds: seq<seq<byte>>, lens: seq<nat>, have: seq<Option<nat>>, partSize: nat, p: nat, k: nat, offset: nat)
    requires SameLengths(ds, lens) && |have| == |lens| && partSize > 0 && AlwaysServed(lens, have, partSize)
    requires p < |Concat(ds)| && Concat(ds)[p] == 1 && k == p / partSize && offset == k * partSize
    ensures k < |ds| && have[k].Some? && PieceOf(ds[k], have[k].value, offset, RangeInfo(p, p)) == Some([1])
  {
    var r := RangeInfo(p, p);
    assert RangeOfParts(ds, have, partSize, r) == Some(Wanted(ds, r));
    assert Wanted(ds, r) == [1];
    SingleByte(ds, have, partSize, r);
  }

  /** If asking for the only marked byte of the concatenation brings the mark, then the part
      at its quotient holds it, at the remainder. */
  lemma MarkFound(ds: seq<seq<byte>>, lens: seq<nat>, size: int, p: nat, k: nat, q: nat, offset: nat)
    requires SameLengths(ds, lens) && p == offset + q < |Concat(ds)| && k < |ds|
    requires forall x :: 0 <= x < |Concat(ds)| && x != p ==> Concat(ds)[x] == 0
    requires PieceOf(ds[k], size, offset, RangeInfo(p, p)) == Some([1])
    ensures q < lens[k] && q < size && Sum(lens[..k]) + q == p
  {
    OneRead(ds[k], size, offset, q);
    BlockAt(ds, lens, k);
    assert ds[k][q] == Concat(ds)[Sum(lens[..k]) + q];
  }

  /** A part read for one byte and found to hold the mark holds it at that place. */
  lemma OneRead(data: seq<byte>, size: int, offset: nat, q: nat)
    requires PieceOf(data, size, offset, RangeInfo(offset + q, offset + q)) == Some([1])
    ensures q < |data| && q < size && data[q] == 1
  {}

  /** A position lies in one part only. */
  lemma SamePlace(lens: seq<nat>, i: nat, d: nat, k: nat, q: nat)
    requires i < |lens| && k < |lens| && d < lens[i] && q < lens[k]
    requires Sum(lens[..i]) + d == Sum(lens[..k]) + q
    ensures i == k && d == q
  {
    if k < i { SumStep(lens, k); SumMonotone(lens, k + 1, i); }
    if i < k { SumStep(lens, i); SumMonotone(lens, i + 1, k); }
  }

  /** Asking for one byte reads at most one part. */
  lemma SingleByte(ds: seq<seq<byte>>, have: seq<Option<nat>>, partSize: nat, r: RangeInfo)
    requires |have| == |ds| && partSize > 0 && 0 <= r.start == r.end
    ensures var k := r.start / partSize;
            RangeOfParts(ds, have, partSize, r) ==
            if k < |ds| then PartBytes(ds, have, partSize, r, k) else Some([])
  {
    var k := r.start / partSize;
    if k < |ds| {
      assert Emit(ds, have, partSize, r, k, k) == Some([]);
      var last := PartBytes(ds, have, partSize, r, k);
      assert last.Some? ==> [] + last.value == last.value;
    }
  }

  /** Main result: every range of every content of these part lengths is served as the same
      stretch of the concatenation iff the parts fit. */
  lemma ServedExact(lens: seq<nat>, have: seq<Option<nat>>, partSize: nat)
    requires |have| == |lens| && partSize > 0
    ensures AlwaysServed(lens, have, partSize) <==> PartsFit(lens, have, partSize)
  {
    if PartsFit(lens, have, partSize) {
      forall ds: seq<seq<byte>>, r: RangeInfo | SameLengths(ds, lens) && 0 <= r.start <= r.end < |Concat(ds)|
        ensures RangeOfParts(ds, have, partSize, r) == Some(Wanted(ds, r))
      { FitsServed(ds, lens, have, partSize, r); }
    }
    if AlwaysServed(lens, have, partSize) {
      forall i | 0 <= i < |lens| ensures PartFits(lens, have, partSize, i) {
        if lens[i] > 0 {
          PositionForced(lens, have, partSize, i, 0);
          PositionForced(lens, have, partSize, i, lens[i] - 1);
        }
      }
    }
  }

  lemma Ordered(a: nat, b: nat, m: nat)
    requires m > 0 && a <= b
    ensures 0 <= a / m <= b / m
  {
    if b / m < a / m { Spread(b / m, a / m, m); }
  }

  function Max(a: int, b: int): int { if a < b then b else a }

  /** No part adds more than its bytes behind the start of the range. */
  lemma PartAtMost(ds: seq<seq<byte>>, lens: seq<nat>, have: seq<Option<nat>>, partSize: nat, r: RangeInfo, k: nat)
    requires SameLengths(ds, lens) && |have| == |lens| && PartsFit(lens, have, partSize) && k < |ds|
    requires PartBytes(ds, have, partSize, r, k).Some?
    ensures |PartBytes(ds, have, partSize, r, k).value| + Max(Sum(lens[..k]), r.start) <= Max(Sum(lens[..k + 1]), r.start)
  {
    SumStep(lens, k);
    assert PartFits(lens, have, partSize, k);
    PieceAtMost(ds[k], if have[k].Some? then have[k].value else 0, k * partSize, r);
  }

  lemma PieceAtMost(data: seq<byte>, size: int, offset: nat, r: RangeInfo)
    ensures var piece := PieceOf(data, size, offset, r);
            piece.Some? ==> |piece.value| <= AtLeastZero(|data| - AtLeastZero(r.start - offset))
  {}

  lemma {:induction false} EmitAtMost(ds: seq<seq<byte>>, lens: seq<nat>, have: seq<Option<nat>>, partSize: nat, r: RangeInfo, lo: nat, hi: nat)
    requires SameLengths(ds, lens) && |have| == |lens| && PartsFit(lens, have, partSize) && lo <= hi <= |ds|
    requires Emit(ds, have, partSize, r, lo, hi).Some?
    ensures |Emit(ds, have, partSize, r, lo, hi).value| + Max(Sum(lens[..lo]), r.start) <= Max(Sum(lens[..hi]), r.start)
    decreases hi
  {
    hide PartBytes, PartsFit;
    if lo < hi {
      EmitAtMost(ds, lens, have, partSize, r, lo, hi - 1);
      PartAtMost(ds, lens, have, partSize, r, hi - 1);
    }
  }

  /** Whatever is sent is no longer than what the parts hold from the start of the range. */
  lemma SentAtMost(ds: seq<seq<byte>>, lens: seq<nat>, have: seq<Option<nat>>, partSize: nat, r: RangeInfo)
    requires SameLengths(ds, lens) && |have| == |lens| && PartsFit(lens, have, partSize) && partSize > 0 && 0 <= r.start <= r.end
    ensures var sent := RangeOfParts(ds, have, partSize, r);
            sent.Some? ==> |sent.value| <= AtLeastZero(|Concat(ds)| - r.start)
  {
    hide Emit, PartsFit;
    if RangeOfParts(ds, have, partSize, r).Some? {
      Ordered(r.start, r.end, partSize);
      var lo, hi := Min(r.start / partSize, |ds|), Min(r.end / partSize + 1, |ds|);
      EmitAtMost(ds, lens, have, partSize, r, lo, hi);
      SumMonotone(lens, hi, |lens|);
      assert lens[..|lens|] == lens;
      ConcatLength(ds, lens);
    }
  }

  /** The length set in the 206 reply (section 4.2 of RFC 7233) is computed from the announced
      file size; it is the number of bytes sent iff the parts reach the end of the range. */
  lemma ContentLengthExact(ds: seq<seq<byte>>, lens: seq<nat>, have: seq<Option<nat>>, partSize: nat, header: Option<string>, announced: nat)
    requires SameLengths(ds, lens) && |have| == |lens| && PartsFit(lens, have, partSize) && partSize > 0
    requires ParseRangeHeader(header, announced).Some?
    ensures var r := ParseRangeHeader(header, announced).value;
            && 0 <= r.start <= r.end < announced
            && var sent := RangeOfParts(ds, have, partSize, r);
               (sent.Some? && |sent.value| == r.end - r.start + 1 <==> r.end < |Concat(ds)|)
  {
    AcceptedInside(header, announced);
    var r := ParseRangeHeader(header, announced).value;
    hide ParseRangeHeader, RangeOfParts, PartsFit;
    if r.end < |Concat(ds)| { FitsServed(ds, lens, have, partSize, r); }
    SentAtMost(ds, lens, have, partSize, r);
  }

  function RecordedSizes(ps: seq<Part>): (have: seq<Option<nat>>)
    ensures |have| == |ps|
    ensures forall i :: 0 <= i < |ps| ==> have[i] == if ps[i].stored.Some? then Some(ps[i].size) else None
  {
    if ps == [] then []
    else RecordedSizes(ps[..|ps| - 1]) + [if ps[|ps| - 1].stored.Some? then Some(ps[|ps| - 1].size) else None]
  }

  lemma EvenFits(parts: seq<Part>, partSize: nat)
    requires Even(parts, partSize)
    ensures var ps := SortParts(parts);
            && SameLengths(Blocks(ps), Sizes(ps)) && |RecordedSizes(ps)| == |Sizes(ps)|
            && PartsFit(Sizes(ps), RecordedSizes(ps), FirstSize(ps))
  {
    EvenSizes(parts, partSize);
    var ps := SortParts(parts);
    var lens := Sizes(ps);
    forall i | 0 <= i < |ps| ensures PartFits(lens, RecordedSizes(ps), FirstSize(ps), i) {
      EqualSum(lens, partSize, i);
    }
  }

  /** Main result: every range inside evenly cut parts is sent as that stretch of their
      concatenation. */
  lemma EvenServed(parts: seq<Part>, partSize: nat, r: RangeInfo)
    requires Even(parts, partSize) && 0 <= r.start <= r.end < |Whole(parts)|
    ensures var ps := SortParts(parts);
            RangeOfParts(Blocks(ps), RecordedSizes(ps), FirstSize(ps), r) == Some(Whole(parts)[r.start..r.end + 1])
  {
    EvenFits(parts, partSize);
    var ps := SortParts(parts);
    FitsServed(Blocks(ps), Sizes(ps), RecordedSizes(ps), FirstSize(ps), r);
  }

  /** What has been sent after part p as well. */
  function Piped(sent: Option<seq<byte>>, p: Part, offset: int, r: RangeInfo): Option<seq<byte>> {
    var here := if p.stored.None? then Some([]) else PieceOf(p.stored.value, p.size, offset, r);
    if sent.Some? && here.Some? then Some(sent.value + here.value) else None
  }

  lemma EmitStep(sorted: seq<Part>, partSize: nat, r: RangeInfo, lo: nat, k: nat)
    requires lo <= k < |sorted|
    ensures var ds, have := Blocks(sorted), RecordedSizes(sorted);
            Emit(ds, have, partSize, r, lo, k + 1) == Piped(Emit(ds, have, partSize, r, lo, k), sorted[k], k * partSize, r)
  {
    assert Blocks(sorted)[k] == Data(sorted[k]);
  }

  method PipePart(before: Option<seq<byte>>, part: Part, partOffset: nat, r: RangeInfo) returns (sent: Option<seq<byte>>)
    ensures sent == Piped(before, part, partOffset, r)
  {
    sent := before;
    assert before.Some? ==> before.value + [] == before.value;
    if part.stored.Some? && sent.Some? {
      var size: int := part.size;
      var readStart, readEnd := AtLeastZero(r.start - partOffset), Min(r.end - partOffset, size - 1);
      var stream := ReadRange(part.stored.value, readStart, readEnd);
      sent := if stream.Some? then Some(sent.value + stream.value) else None;
    }
  }

  /** The loop that pipes the relevant parts into the response stream. */
  method PipeParts(sorted: seq<Part>, startPart: nat, relevant: seq<Part>, partSize: nat, r: RangeInfo) returns (sent: Option<seq<byte>>)
    requires startPart + |relevant| <= |sorted| && relevant == sorted[startPart..startPart + |relevant|]
    requires 0 <= r.start <= r.end
    ensures sent == Emit(Blocks(sorted), RecordedSizes(sorted), partSize, r, startPart, startPart + |relevant|)
  {
    sent := Some([]);
    for k := startPart to startPart + |relevant|
      invariant sent == Emit(Blocks(sorted), RecordedSizes(sorted), partSize, r, startPart, k)
    {
      EmitStep(sorted, partSize, r, startPart, k);
      sent := PipePart(sent, relevant[k - startPart], k * partSize, r);
    }
  }

  method DownloadFromPartsWithRange(parts: seq<Part>, r: RangeInfo) returns (sent: Option<seq<byte>>)
    requires 0 <= r.start <= r.end
    ensures var sorted := SortParts(parts);
            sent == RangeOfParts(Blocks(sorted), RecordedSizes(sorted), FirstSize(sorted), r)
    ensures forall size | Even(parts, size) && r.end < |Whole(parts)| ::
              sent == Some(Whole(parts)[r.start..r.end + 1])
  {
    hide Emit, SortParts, Blocks, RecordedSizes, Even, Concat;
    var sorted := SortParts(parts);
    var partSize := FirstSize(sorted);
    Ordered(r.start, r.end, partSize);
    var lo, hi := Min(r.start / partSize, |sorted|), Min(r.end / partSize + 1, |sorted|);
    sent := PipeParts(sorted, lo, sorted[lo..hi], partSize, r);
    forall size | Even(parts, size) && r.end < |Whole(parts)|
      ensures sent == Some(Whole(parts)[r.start..r.end + 1])
    { EvenServed(parts, size, r); }
  }
}
