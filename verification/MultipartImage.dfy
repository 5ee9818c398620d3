/** From the parts of a multipart upload to one file: the NAS upload by chunks written at
    offsets, the cache file made by concatenation, and the upload of a cached file. */
module MultipartImage {
  import opened Wrappers

  type byte = bv8

  const DEFAULT_PART_SIZE: nat := 10 * 1024 * 1024

  /** A completed part: its recorded size, and the bytes the cache holds for it. A part
      without an object key has no bytes and is skipped. */
  datatype Part = Part(partNumber: nat, size: nat, stored: Option<seq<byte>>)

  function Data(p: Part): seq<byte> {
    if p.stored.Some? then p.stored.value else []
  }

  function Insert(p: Part, ps: seq<Part>): seq<Part> {
    if ps == [] || p.partNumber <= ps[0].partNumber then [p] + ps else [ps[0]] + Insert(p, ps[1..])
  }

  /** `parts.sort((a, b) => a.partNumber - b.partNumber)` */
  function SortParts(ps: seq<Part>): seq<Part> {
    if ps == [] then [] else Insert(ps[0], SortParts(ps[1..]))
  }

  /** The stored bytes part by part. */
  function Blocks(ps: seq<Part>): (ds: seq<seq<byte>>)
    ensures |ds| == |ps| && forall i :: 0 <= i < |ps| ==> ds[i] == Data(ps[i])
  {
    if ps == [] then [] else Blocks(ps[..|ps| - 1]) + [Data(ps[|ps| - 1])]
  }

  function Concat(ds: seq<seq<byte>>): seq<byte> {
    if ds == [] then [] else Concat(ds[..|ds| - 1]) + ds[|ds| - 1]
  }

  function Min(a: int, b: int): int { if a < b then a else b }

  lemma Quotient(a: nat, b: nat)
    requires b > 0
    ensures a == (a / b) * b + a % b
    ensures (a / b + 1) * b == (a / b) * b + b && (a / b - 1) * b == (a / b) * b - b
  {}

  /** `Math.ceil(a / b)` */
  function CeilDiv(a: nat, b: nat): (q: nat)
    requires b > 0
    ensures q * b >= a && (a > 0 ==> q > 0) && (q > 0 ==> (q - 1) * b < a)
  {
    Quotient(a, b);
    if a % b == 0 then a / b else a / b + 1
  }

  /** `sortedParts[0]?.size || default` */
  function FirstSize(ps: seq<Part>): (s: nat)
    ensures s > 0
  {
    if ps == [] || ps[0].size == 0 then DEFAULT_PART_SIZE else ps[0].size
  }

  // ------------------------------------------------------------------ concatenation

  lemma {:induction false} ConcatAppend(a: seq<seq<byte>>, b: seq<seq<byte>>)
    ensures Concat(a + b) == Concat(a) + Concat(b)
  {
    if b == [] {
      assert a + b == a;
    } else {
      var n := |b| - 1;
      assert (a + b)[..|a + b| - 1] == a + b[..n];
      ConcatAppend(a, b[..n]);
    }
  }

  lemma ConcatOne(d: seq<byte>)
    ensures Concat([d]) == d
  {
    assert [d][..0] == [];
  }

  /** Position of the first byte of block i. */
  function Start(ds: seq<seq<byte>>, i: nat): nat
    requires i <= |ds|
  {
    |Concat(ds[..i])|
  }

  /** Consecutive blocks are a stretch of the whole. */
  lemma Stretch(ds: seq<seq<byte>>, lo: nat, hi: nat)
    requires lo <= hi <= |ds|
    ensures Start(ds, lo) + |Concat(ds[lo..hi])| == Start(ds, hi) <= |Concat(ds)|
    ensures Concat(ds[lo..hi]) == Concat(ds)[Start(ds, lo)..Start(ds, hi)]
  {
    ConcatAppend(ds[..lo], ds[lo..hi]);
    ConcatAppend(ds[..hi], ds[hi..]);
    assert ds[..lo] + ds[lo..hi] == ds[..hi];
    assert ds[..hi] + ds[hi..] == ds;
  }

  // ------------------------------------------------------------------ writing at offsets

  function Zeros(n: nat): (z: seq<byte>)
    ensures |z| == n && forall i :: 0 <= i < n ==> z[i] == 0
  {
    seq(n, _ => 0)
  }

  /** A positioned write: fills a gap with zeros and extends the file where needed. */
  function WriteAt(file: seq<byte>, data: seq<byte>, offset: nat): (r: seq<byte>) {
    if data == [] then file else
    var f := if |file| < offset then file + Zeros(offset - |file|) else file;
    f[..offset] + data + if offset + |data| <= |f| then f[offset + |data|..] else []
  }

  lemma WriteAtPoint(file: seq<byte>, data: seq<byte>, offset: nat, x: nat)
    ensures var r := WriteAt(file, data, offset);
            && |r| == (if data == [] then |file| else if |file| > offset + |data| then |file| else offset + |data|)
            && (x < |r| ==> r[x] == if offset <= x < offset + |data| then data[x - offset]
                                    else if x < |file| then file[x] else 0)
  {}

  /** The blocks that go into chunk c. */
  function ChunkLow(n: nat, perChunk: nat, c: nat): nat { Min(c * perChunk, n) }

  function ChunkData(ds: seq<seq<byte>>, perChunk: nat, c: nat): seq<byte> {
    assert (c + 1) * perChunk == c * perChunk + perChunk;
    Concat(ds[ChunkLow(|ds|, perChunk, c)..ChunkLow(|ds|, perChunk, c + 1)])
  }

  /** The NAS file after the chunks of `order` have been written one after the other. */
  function Image(ds: seq<seq<byte>>, perChunk: nat, chunkSize: nat, fileSize: nat, order: seq<nat>): seq<byte> {
    if order == [] then Zeros(fileSize)
    else
      var c := order[|order| - 1];
      WriteAt(Image(ds, perChunk, chunkSize, fileSize, order[..|order| - 1]), ChunkData(ds, perChunk, c), c * chunkSize)
  }

  /** Every chunk is written, in some order, possibly more than once. */
  ghost predicate Covers(order: seq<nat>, total: nat) {
    && (forall i :: 0 <= i < |order| ==> order[i] < total)
    && (forall c :: 0 <= c < total ==> c in order)
  }

  ghost predicate SameLengths(ds: seq<seq<byte>>, lens: seq<nat>) {
    |ds| == |lens| && forall i :: 0 <= i < |ds| ==> |ds[i]| == lens[i]
  }

  function Sum(lens: seq<nat>): nat {
    if lens == [] then 0 else Sum(lens[..|lens| - 1]) + lens[|lens| - 1]
  }

  lemma {:induction false} ConcatLength(ds: seq<seq<byte>>, lens: seq<nat>)
    requires SameLengths(ds, lens)
    ensures |Concat(ds)| == Sum(lens)
  {
    if ds != [] { ConcatLength(ds[..|ds| - 1], lens[..|ds| - 1]); }
  }

  lemma StartIsSum(ds: seq<seq<byte>>, lens: seq<nat>, i: nat)
    requires SameLengths(ds, lens) && i <= |lens|
    ensures Start(ds, i) == Sum(lens[..i])
  {
    ConcatLength(ds[..i], lens[..i]);
  }

  // ------------------------------------------------------------------ plans

  /** Bytes lo..hi of a whole, written at an offset. */
  datatype Slice = Slice(lo: nat, hi: nat, offset: nat)

  predicate Within(sl: Slice, n: nat) { sl.lo <= sl.hi <= n }

  /** The slice is empty or goes where it comes from. */
  predicate InPlace(sl: Slice) { sl.lo == sl.hi || sl.lo == sl.offset }

  predicate Has(sl: Slice, x: int) { sl.lo <= x < sl.hi }

  ghost predicate AllWithin(plan: seq<Slice>, n: nat) {
    forall i :: 0 <= i < |plan| ==> Within(plan[i], n)
  }

  ghost predicate AllInPlace(plan: seq<Slice>) {
    forall i :: 0 <= i < |plan| ==> InPlace(plan[i])
  }

  ghost predicate Reached(plan: seq<Slice>, x: int) {
    exists i :: 0 <= i < |plan| && Has(plan[i], x)
  }

  ghost function Written(whole: seq<byte>, file: seq<byte>, plan: seq<Slice>): seq<byte>
    requires AllWithin(plan, |whole|)
  {
    if plan == [] then file
    else
      var sl := plan[|plan| - 1];
      assert Within(sl, |whole|);
      WriteAt(Written(whole, file, plan[..|plan| - 1]), whole[sl.lo..sl.hi], sl.offset)
  }

  lemma OneWrite(f: seq<byte>, whole: seq<byte>, sl: Slice)
    requires Within(sl, |whole|) && InPlace(sl) && |f| <= |whole|
    ensures var r := WriteAt(f, whole[sl.lo..sl.hi], sl.offset);
            && |f| <= |r| <= |whole|
            && (forall x :: Has(sl, x) ==> x < |r| && r[x] == whole[x])
            && (forall x :: 0 <= x < |f| && f[x] == whole[x] ==> r[x] == whole[x])
  {}

  /** Everything a plan of slices in place has written is right. */
  lemma {:induction false} PlanFits(whole: seq<byte>, file: seq<byte>, plan: seq<Slice>)
    requires |file| <= |whole| && AllWithin(plan, |whole|) && AllInPlace(plan)
    ensures |Written(whole, file, plan)| <= |whole|
    ensures forall x :: Reached(plan, x) ==>
              0 <= x < |Written(whole, file, plan)| && Written(whole, file, plan)[x] == whole[x]
    decreases |plan|
  {
    if plan != [] {
      var n := |plan| - 1;
      var before := plan[..n];
      PlanFits(whole, file, before);
      assert Within(plan[n], |whole|) && InPlace(plan[n]);
      var f := Written(whole, file, before);
      OneWrite(f, whole, plan[n]);
      assert Written(whole, file, plan) == WriteAt(f, whole[plan[n].lo..plan[n].hi], plan[n].offset);
      forall x | Reached(plan, x)
        ensures 0 <= x < |Written(whole, file, plan)| && Written(whole, file, plan)[x] == whole[x]
      {
        var i :| 0 <= i < |plan| && Has(plan[i], x);
        if i < n { assert before[i] == plan[i]; assert Reached(before, x); }
      }
    }
  }

  /** If moreover every position is in some slice, the file becomes the whole. */
  lemma PlanCompletes(whole: seq<byte>, file: seq<byte>, plan: seq<Slice>)
    requires |file| <= |whole| && AllWithin(plan, |whole|) && AllInPlace(plan)
    requires forall x :: 0 <= x < |whole| ==> Reached(plan, x)
    ensures Written(whole, file, plan) == whole
  {
    PlanFits(whole, file, plan);
    var r := Written(whole, file, plan);
    if |whole| > 0 { assert Reached(plan, |whole| - 1); }
    assert |r| == |whole|;
    forall x | 0 <= x < |whole| ensures r[x] == whole[x] { assert Reached(plan, x); }
  }

  lemma {:induction false} WrittenLength(whole: seq<byte>, file: seq<byte>, plan: seq<Slice>)
    requires AllWithin(plan, |whole|)
    ensures |Written(whole, file, plan)| >= |file|
    decreases |plan|
  {
    if plan != [] { WrittenLength(whole, file, plan[..|plan| - 1]); }
  }

  /** All bytes zero but the one at p. */
  function Marked(n: nat, p: nat): (m: seq<byte>)
    ensures |m| == n && forall x :: 0 <= x < n ==> m[x] == if x == p then 1 else 0
  {
    seq(n, x => if x == p then 1 else 0)
  }

  /** The slice does not bring byte p to position p. */
  predicate Misses(sl: Slice, p: nat) { Has(sl, p) ==> sl.offset != sl.lo }

  /** If no slice brings byte p to position p, a file of zeros never gets the mark there. */
  lemma {:induction false} MarkMissed(n: nat, p: nat, size: nat, plan: seq<Slice>)
    requires p < n && AllWithin(plan, n)
    requires forall i :: 0 <= i < |plan| ==> Misses(plan[i], p)
    ensures var r := Written(Marked(n, p), Zeros(size), plan); p < |r| ==> r[p] == 0
    decreases |plan|
  {
    if plan != [] {
      var sl := plan[|plan| - 1];
      var before := plan[..|plan| - 1];
      MarkMissed(n, p, size, before);
      var m := Marked(n, p);
      assert Within(sl, n) && Misses(sl, p);
      WriteAtPoint(Written(m, Zeros(size), before), m[sl.lo..sl.hi], sl.offset, p);
    }
  }

  // ------------------------------------------------------------------ the chunk layout

  /** Where chunk c comes from in the concatenation, and where it goes. */
  function ChunkSlice(lens: seq<nat>, perChunk: nat, chunkSize: nat, c: nat): Slice {
    Slice(Sum(lens[..ChunkLow(|lens|, perChunk, c)]), Sum(lens[..ChunkLow(|lens|, perChunk, c + 1)]), c * chunkSize)
  }

  function ChunkPlan(lens: seq<nat>, perChunk: nat, chunkSize: nat, order: seq<nat>): (plan: seq<Slice>)
    ensures |plan| == |order|
    ensures forall i :: 0 <= i < |order| ==> plan[i] == ChunkSlice(lens, perChunk, chunkSize, order[i])
  {
    if order == [] then []
    else ChunkPlan(lens, perChunk, chunkSize, order[..|order| - 1]) + [ChunkSlice(lens, perChunk, chunkSize, order[|order| - 1])]
  }

  lemma ChunkPlace(ds: seq<seq<byte>>, lens: seq<nat>, perChunk: nat, chunkSize: nat, c: nat)
    requires SameLengths(ds, lens)
    ensures var sl := ChunkSlice(lens, perChunk, chunkSize, c);
            Within(sl, |Concat(ds)|) && ChunkData(ds, perChunk, c) == Concat(ds)[sl.lo..sl.hi]
  {
    assert (c + 1) * perChunk == c * perChunk + perChunk;
    var lo, hi := ChunkLow(|lens|, perChunk, c), ChunkLow(|lens|, perChunk, c + 1);
    StartIsSum(ds, lens, lo);
    StartIsSum(ds, lens, hi);
    Stretch(ds, lo, hi);
  }

  lemma PlanWithin(ds: seq<seq<byte>>, lens: seq<nat>, perChunk: nat, chunkSize: nat, order: seq<nat>)
    requires SameLengths(ds, lens)
    ensures AllWithin(ChunkPlan(lens, perChunk, chunkSize, order), |Concat(ds)|)
  {
    forall i | 0 <= i < |order| ensures Within(ChunkSlice(lens, perChunk, chunkSize, order[i]), |Concat(ds)|) {
      ChunkPlace(ds, lens, perChunk, chunkSize, order[i]);
    }
  }

  lemma {:induction false} ImageIsPlan(ds: seq<seq<byte>>, lens: seq<nat>, perChunk: nat, chunkSize: nat, fileSize: nat, order: seq<nat>)
    requires SameLengths(ds, lens)
    requires AllWithin(ChunkPlan(lens, perChunk, chunkSize, order), |Concat(ds)|)
    ensures Image(ds, perChunk, chunkSize, fileSize, order)
            == Written(Concat(ds), Zeros(fileSize), ChunkPlan(lens, perChunk, chunkSize, order))
    decreases |order|
  {
    if order != [] {
      var before := order[..|order| - 1];
      PlanWithin(ds, lens, perChunk, chunkSize, before);
      ImageIsPlan(ds, lens, perChunk, chunkSize, fileSize, before);
      ChunkPlace(ds, lens, perChunk, chunkSize, order[|order| - 1]);
      var plan := ChunkPlan(lens, perChunk, chunkSize, order);
      assert plan[..|plan| - 1] == ChunkPlan(lens, perChunk, chunkSize, before);
    }
  }

  /** What can be checked from the part lengths alone: each chunk's first part begins where
      the chunk is written, no part is left over, and the file is not announced too long. */
  predicate LayoutFits(lens: seq<nat>, perChunk: nat, chunkSize: nat, fileSize: nat, total: nat) {
    && fileSize <= Sum(lens)
    && Sum(lens[..ChunkLow(|lens|, perChunk, total)]) == Sum(lens)
    && forall c :: 0 <= c < total ==> InPlace(ChunkSlice(lens, perChunk, chunkSize, c))
  }

  /** Positions before a chunk boundary belong to an earlier chunk. */
  lemma {:induction false} ChunkOf(lens: seq<nat>, perChunk: nat, chunkSize: nat, total: nat, x: nat) returns (c: nat)
    requires x < Sum(lens[..ChunkLow(|lens|, perChunk, total)])
    ensures c < total && Has(ChunkSlice(lens, perChunk, chunkSize, c), x)
    decreases total
  {
    assert ChunkLow(|lens|, perChunk, 0) == 0 && lens[..0] == [];
    c := total - 1;
    if x < Sum(lens[..ChunkLow(|lens|, perChunk, c)]) { c := ChunkOf(lens, perChunk, chunkSize, c, x); }
  }

  /** A layout that fits gives the concatenation, whatever the bytes and the order. */
  lemma FittingImage(ds: seq<seq<byte>>, lens: seq<nat>, perChunk: nat, chunkSize: nat, fileSize: nat, total: nat, order: seq<nat>)
    requires SameLengths(ds, lens) && LayoutFits(lens, perChunk, chunkSize, fileSize, total) && Covers(order, total)
    ensures Image(ds, perChunk, chunkSize, fileSize, order) == Concat(ds)
  {
    ConcatLength(ds, lens);
    PlanWithin(ds, lens, perChunk, chunkSize, order);
    ImageIsPlan(ds, lens, perChunk, chunkSize, fileSize, order);
    var plan := ChunkPlan(lens, perChunk, chunkSize, order);
    forall x | 0 <= x < |Concat(ds)| ensures Reached(plan, x) {
      var c := ChunkOf(lens, perChunk, chunkSize, total, x);
      assert c in order;
      var i :| 0 <= i < |order| && order[i] == c;
      assert Has(plan[i], x);
    }
    PlanCompletes(Concat(ds), Zeros(fileSize), plan);
  }

  /** Cut a byte sequence into blocks of given lengths. */
  function Cut(bytes: seq<byte>, lens: seq<nat>): seq<seq<byte>>
    requires |bytes| == Sum(lens)
    decreases |lens|
  {
    if lens == [] then []
    else
      var n := Sum(lens[..|lens| - 1]);
      Cut(bytes[..n], lens[..|lens| - 1]) + [bytes[n..]]
  }

  lemma {:induction false} CutParts(bytes: seq<byte>, lens: seq<nat>)
    requires |bytes| == Sum(lens)
    ensures SameLengths(Cut(bytes, lens), lens) && Concat(Cut(bytes, lens)) == bytes
    decreases |lens|
  {
    if lens != [] {
      var n, init := Sum(lens[..|lens| - 1]), lens[..|lens| - 1];
      CutParts(bytes[..n], init);
      var ds := Cut(bytes, lens);
      assert ds[..|ds| - 1] == Cut(bytes[..n], init);
      assert bytes == bytes[..n] + bytes[n..];
    }
  }

  /** Upload in any order gives the concatenation for any bytes of these lengths. */
  ghost predicate AlwaysConcat(lens: seq<nat>, perChunk: nat, chunkSize: nat, fileSize: nat, total: nat) {
    forall ds, order :: SameLengths(ds, lens) && Covers(order, total) ==>
      Image(ds, perChunk, chunkSize, fileSize, order) == Concat(ds)
  }

  function UpTo(n: nat): (s: seq<nat>)
    ensures Covers(s, n) && |s| == n && forall i :: 0 <= i < n ==> s[i] == i
  {
    if n == 0 then [] else UpTo(n - 1) + [n - 1]
  }

  /** A byte that no chunk brings to its place is lost for some content. */
  lemma MarkLost(lens: seq<nat>, perChunk: nat, chunkSize: nat, fileSize: nat, total: nat, p: nat)
    requires p < Sum(lens)
    requires forall c :: 0 <= c < total ==> Misses(ChunkSlice(lens, perChunk, chunkSize, c), p)
    ensures !AlwaysConcat(lens, perChunk, chunkSize, fileSize, total)
  {
    var n := Sum(lens);
    CutParts(Marked(n, p), lens);
    var ds, order := Cut(Marked(n, p), lens), UpTo(total);
    PlanWithin(ds, lens, perChunk, chunkSize, order);
    ImageIsPlan(ds, lens, perChunk, chunkSize, fileSize, order);
    MarkMissed(n, p, fileSize, ChunkPlan(lens, perChunk, chunkSize, order));
    assert Concat(ds)[p] == 1;
  }

  lemma {:induction false} SumMonotone(lens: seq<nat>, i: nat, j: nat)
    requires i <= j <= |lens|
    ensures Sum(lens[..i]) <= Sum(lens[..j])
    decreases j
  {
    if i < j {
      assert lens[..j][..j - 1] == lens[..j - 1];
      SumMonotone(lens, i, j - 1);
    }
  }

  lemma ChunkLowMonotone(n: nat, perChunk: nat, c: nat, d: nat)
    requires c <= d
    ensures ChunkLow(n, perChunk, c) <= ChunkLow(n, perChunk, d) <= n
  {
    assert d * perChunk == c * perChunk + (d - c) * perChunk;
  }

  /** Different chunks have no byte in common. */
  lemma ChunksApart(lens: seq<nat>, perChunk: nat, chunkSize: nat, c: nat, d: nat, p: nat)
    requires c < d && Has(ChunkSlice(lens, perChunk, chunkSize, c), p)
    ensures !Has(ChunkSlice(lens, perChunk, chunkSize, d), p)
  {
    ChunkLowMonotone(|lens|, perChunk, c + 1, d);
    SumMonotone(lens, ChunkLow(|lens|, perChunk, c + 1), ChunkLow(|lens|, perChunk, d));
  }

  /** Bytes left over behind the last chunk are lost. */
  lemma TailLost(lens: seq<nat>, perChunk: nat, chunkSize: nat, fileSize: nat, total: nat)
    requires Sum(lens[..ChunkLow(|lens|, perChunk, total)]) != Sum(lens)
    ensures !AlwaysConcat(lens, perChunk, chunkSize, fileSize, total)
  {
    var p := Sum(lens[..ChunkLow(|lens|, perChunk, total)]);
    assert lens[..|lens|] == lens;
    SumMonotone(lens, ChunkLow(|lens|, perChunk, total), |lens|);
    forall c | 0 <= c < total ensures Misses(ChunkSlice(lens, perChunk, chunkSize, c), p) {
      ChunkLowMonotone(|lens|, perChunk, c + 1, total);
      SumMonotone(lens, ChunkLow(|lens|, perChunk, c + 1), ChunkLow(|lens|, perChunk, total));
    }
    MarkLost(lens, perChunk, chunkSize, fileSize, total, p);
  }

  /** The first byte of a misplaced chunk is lost. */
  lemma MisplacedLost(lens: seq<nat>, perChunk: nat, chunkSize: nat, fileSize: nat, total: nat, c0: nat)
    requires c0 < total && !InPlace(ChunkSlice(lens, perChunk, chunkSize, c0))
    ensures !AlwaysConcat(lens, perChunk, chunkSize, fileSize, total)
  {
    var p := ChunkSlice(lens, perChunk, chunkSize, c0).lo;
    ChunkLowMonotone(|lens|, perChunk, c0, c0 + 1);
    SumMonotone(lens, ChunkLow(|lens|, perChunk, c0), ChunkLow(|lens|, perChunk, c0 + 1));
    assert lens[..|lens|] == lens;
    SumMonotone(lens, ChunkLow(|lens|, perChunk, c0 + 1), |lens|);
    forall c | 0 <= c < total ensures Misses(ChunkSlice(lens, perChunk, chunkSize, c), p) {
      if c < c0 && Has(ChunkSlice(lens, perChunk, chunkSize, c), p) { ChunksApart(lens, perChunk, chunkSize, c, c0, p); }
      if c0 < c { ChunksApart(lens, perChunk, chunkSize, c0, c, p); }
    }
    MarkLost(lens, perChunk, chunkSize, fileSize, total, p);
  }

  /** A file announced too long keeps its zeros behind the data. */
  lemma TooLong(lens: seq<nat>, perChunk: nat, chunkSize: nat, fileSize: nat, total: nat)
    requires fileSize > Sum(lens)
    ensures !AlwaysConcat(lens, perChunk, chunkSize, fileSize, total)
  {
    CutParts(Zeros(Sum(lens)), lens);
    var ds, order := Cut(Zeros(Sum(lens)), lens), UpTo(total);
    PlanWithin(ds, lens, perChunk, chunkSize, order);
    ImageIsPlan(ds, lens, perChunk, chunkSize, fileSize, order);
    WrittenLength(Concat(ds), Zeros(fileSize), ChunkPlan(lens, perChunk, chunkSize, order));
  }

  /** Main result: uploading by chunks in any order reproduces the concatenation, for all
      contents of the given part lengths, iff the layout fits. */
  lemma LayoutExact(lens: seq<nat>, perChunk: nat, chunkSize: nat, fileSize: nat, total: nat)
    ensures AlwaysConcat(lens, perChunk, chunkSize, fileSize, total)
            <==> LayoutFits(lens, perChunk, chunkSize, fileSize, total)
  {
    if LayoutFits(lens, perChunk, chunkSize, fileSize, total) {
      forall ds, order | SameLengths(ds, lens) && Covers(order, total)
        ensures Image(ds, perChunk, chunkSize, fileSize, order) == Concat(ds)
      { FittingImage(ds, lens, perChunk, chunkSize, fileSize, total, order); }
    } else if fileSize > Sum(lens) {
      TooLong(lens, perChunk, chunkSize, fileSize, total);
    } else if Sum(lens[..ChunkLow(|lens|, perChunk, total)]) != Sum(lens) {
      TailLost(lens, perChunk, chunkSize, fileSize, total);
    } else {
      var c0 :| 0 <= c0 < total && !InPlace(ChunkSlice(lens, perChunk, chunkSize, c0));
      MisplacedLost(lens, perChunk, chunkSize, fileSize, total, c0);
    }
  }
}
