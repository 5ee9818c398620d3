/** The upload methods over the chunk layout: equal parts fit, batches in any completion
    order, the cached-file upload, the cache concatenation, and the progress figures. */
module MultipartUpload {
  import opened Wrappers
  import opened MultipartImage

  // ------------------------------------------------------------------ equal parts

  /** All parts have the first one's size, the last may be shorter but is not empty. */
  predicate EqualParts(lens: seq<nat>, partSize: nat) {
    && (forall i :: 0 <= i < |lens| - 1 ==> lens[i] == partSize)
    && (lens != [] ==> 0 < lens[|lens| - 1] <= partSize)
  }

  /** All parts but the last have the given size, and the last is no longer. */
  predicate EvenLengths(lens: seq<nat>, partSize: nat) {
    && (forall i :: 0 <= i < |lens| - 1 ==> lens[i] == partSize)
    && (lens != [] ==> lens[|lens| - 1] <= partSize)
  }

  lemma {:induction false} EqualSum(lens: seq<nat>, partSize: nat, i: nat)
    requires EvenLengths(lens, partSize) && i < |lens|
    ensures Sum(lens[..i]) == i * partSize
    decreases i
  {
    if i > 0 {
      assert lens[..i][..i - 1] == lens[..i - 1];
      EqualSum(lens, partSize, i - 1);
      assert i * partSize == (i - 1) * partSize + partSize;
    } else {
      assert lens[..0] == [];
    }
  }

  lemma EqualTotal(lens: seq<nat>, partSize: nat)
    requires EvenLengths(lens, partSize) && lens != []
    ensures Sum(lens) == (|lens| - 1) * partSize + lens[|lens| - 1]
  {
    EqualSum(lens, partSize, |lens| - 1);
  }

  lemma MulAtMost(a: nat, b: nat, m: nat)
    requires a <= b
    ensures a * m <= b * m
  {
    assert b * m == a * m + (b - a) * m;
  }

  lemma MulLess(a: nat, b: nat, m: nat)
    ensures a * m < b * m ==> a < b
  {
    if b <= a { MulAtMost(b, a, m); }
  }

  lemma MulAssoc(a: nat, b: nat, m: nat)
    ensures (a * b) * m == a * (b * m)
  {}

  lemma EqualChunk(lens: seq<nat>, partSize: nat, k: nat, c: nat)
    requires EvenLengths(lens, partSize)
    ensures InPlace(ChunkSlice(lens, k, k * partSize, c))
  {
    assert (c + 1) * k == c * k + k;
    if c * k < |lens| {
      EqualSum(lens, partSize, c * k);
      MulAssoc(c, k, partSize);
    }
  }

  lemma Enough(n: nat, t: nat, m: nat, last: nat)
    requires n > 0 && m > 0 && t * m >= (n - 1) * m + last
    ensures t >= n || (t == n - 1 && last == 0)
  {
    if t < n {
      MulAtMost(t, n - 1, m);
      if t < n - 1 { MulAtMost(t + 1, n - 1, m); }
    }
  }

  /** Enough chunks for the bytes are enough chunks for the parts. */
  lemma EqualCovered(lens: seq<nat>, partSize: nat, k: nat, total: nat)
    requires EvenLengths(lens, partSize) && partSize > 0 && total * (k * partSize) >= Sum(lens)
    ensures Sum(lens[..ChunkLow(|lens|, k, total)]) == Sum(lens)
  {
    assert lens[..|lens|] == lens;
    if lens != [] {
      EqualTotal(lens, partSize);
      MulAssoc(total, k, partSize);
      Enough(|lens|, total * k, partSize, lens[|lens| - 1]);
    }
  }

  /** Equal parts whose size divides the chunk size fit the layout of their total length. */
  lemma EqualPartsFit(lens: seq<nat>, partSize: nat, chunkSize: nat)
    requires EvenLengths(lens, partSize) && partSize > 0 && chunkSize > 0 && chunkSize % partSize == 0
    ensures LayoutFits(lens, CeilDiv(chunkSize, partSize), chunkSize, Sum(lens), CeilDiv(Sum(lens), chunkSize))
  {
    var k := CeilDiv(chunkSize, partSize);
    assert chunkSize == k * partSize;
    var total := CeilDiv(Sum(lens), chunkSize);
    EqualCovered(lens, partSize, k, total);
    forall c | 0 <= c < total ensures InPlace(ChunkSlice(lens, k, chunkSize, c)) { EqualChunk(lens, partSize, k, c); }
  }

  /** Parts that all belong to the first chunk fit. */
  lemma OneChunkFits(lens: seq<nat>, k: nat, chunkSize: nat, total: nat)
    requires chunkSize > 0 && |lens| <= k && total == CeilDiv(Sum(lens), chunkSize)
    ensures LayoutFits(lens, k, chunkSize, Sum(lens), total)
  {
    assert lens[..|lens|] == lens && lens[..0] == [];
    assert total == 0 ==> Sum(lens) == 0;
    forall c | 1 <= c <= total ensures ChunkLow(|lens|, k, c) == |lens| { MulAtMost(1, c, k); }
    forall c | 0 <= c < total ensures InPlace(ChunkSlice(lens, k, chunkSize, c)) {
      assert ChunkLow(|lens|, k, 0) == 0;
    }
    assert Sum(lens[..ChunkLow(|lens|, k, total)]) == Sum(lens) || total == 0;
  }

  lemma TwoChunks(size: nat, chunkSize: nat)
    requires 0 < chunkSize < size
    ensures CeilDiv(size, chunkSize) > 1
  {
    if CeilDiv(size, chunkSize) <= 1 { MulAtMost(CeilDiv(size, chunkSize), 1, chunkSize); }
  }

  /** Part k is not empty. */
  lemma NextPart(lens: seq<nat>, partSize: nat, k: nat, hi: nat)
    requires EqualParts(lens, partSize) && partSize > 0 && k < hi <= |lens|
    ensures Sum(lens[..k]) < Sum(lens[..hi])
  {
    assert lens[k] > 0;
    assert lens[..k + 1][..k] == lens[..k];
    SumMonotone(lens, k + 1, hi);
  }

  /** If the parts of a chunk are longer than the chunk, the second chunk's first part stands
      too far back. */
  lemma SecondMisplaced(lens: seq<nat>, partSize: nat, k: nat, chunkSize: nat)
    requires EqualParts(lens, partSize) && partSize > 0 && k < |lens| && 0 < chunkSize < k * partSize
    ensures CeilDiv(Sum(lens), chunkSize) > 1 && !InPlace(ChunkSlice(lens, k, chunkSize, 1))
  {
    EqualSum(lens, partSize, k);
    assert k > 0;
    NextPart(lens, partSize, k, |lens|);
    NextPart(lens, partSize, k, Min(2 * k, |lens|));
    assert lens[..|lens|] == lens;
    hide Sum, EqualParts, CeilDiv;
    TwoChunks(Sum(lens), chunkSize);
  }

  /** Equal parts fit the layout of their total length iff their size divides the chunk size
      or all of them go into the first chunk. */
  lemma EqualPartsExact(lens: seq<nat>, partSize: nat, chunkSize: nat)
    requires EqualParts(lens, partSize) && partSize > 0 && chunkSize > 0
    ensures var k := CeilDiv(chunkSize, partSize);
            LayoutFits(lens, k, chunkSize, Sum(lens), CeilDiv(Sum(lens), chunkSize))
            <==> chunkSize % partSize == 0 || |lens| <= k
  {
    var k := CeilDiv(chunkSize, partSize);
    if chunkSize % partSize == 0 {
      EqualPartsFit(lens, partSize, chunkSize);
    } else if |lens| <= k {
      OneChunkFits(lens, k, chunkSize, CeilDiv(Sum(lens), chunkSize));
    } else {
      CeilAbove(chunkSize, partSize);
      SecondMisplaced(lens, partSize, k, chunkSize);
    }
  }

  lemma CeilAbove(a: nat, m: nat)
    requires m > 0 && a % m != 0
    ensures a < CeilDiv(a, m) * m
  {}

  const DEFAULT_CHUNK_SIZE: nat := 50 * 1024 * 1024

  /** Equal parts of the default size fit the layout of the default chunks, five to a chunk. */
  lemma DefaultSizesFit(lens: seq<nat>)
    requires EqualParts(lens, 10 * 1024 * 1024)
    ensures CeilDiv(DEFAULT_CHUNK_SIZE, DEFAULT_PART_SIZE) == 5 && DEFAULT_CHUNK_SIZE == 50 * 1024 * 1024
    ensures LayoutFits(lens, 5, DEFAULT_CHUNK_SIZE, Sum(lens), CeilDiv(Sum(lens), DEFAULT_CHUNK_SIZE))
  {
    assert CeilDiv(DEFAULT_CHUNK_SIZE, DEFAULT_PART_SIZE) == 5 && DEFAULT_CHUNK_SIZE % DEFAULT_PART_SIZE == 0;
    hide LayoutFits, EqualParts, Sum, CeilDiv;
    EqualPartsExact(lens, DEFAULT_PART_SIZE, DEFAULT_CHUNK_SIZE);
  }

  /** A part size that does not divide the chunk size misplaces bytes: parts of 3 with
      chunks of 4, two parts a chunk, nine bytes. */
  lemma UnevenMisplaces()
    ensures CeilDiv(4, 3) == 2 && CeilDiv(9, 4) == 3
    ensures !AlwaysConcat([3, 3, 3], 2, 4, 9, 3)
  {
    var lens: seq<nat> := [3, 3, 3];
    assert lens[..2] == [3, 3] && [3, 3][..1] == [3] && lens[..3] == lens && lens[..0] == [] && [3][..0] == [];
    assert Sum([3]) == 3;
    assert Sum([3, 3]) == 6;
    assert Sum(lens) == 9;
    var sl := ChunkSlice(lens, 2, 4, 1);
    assert sl.lo == 6 && sl.hi == 9 && sl.offset == 4;
    LayoutExact(lens, 2, 4, 9, 3);
  }

  // ------------------------------------------------------------------ evenly cut parts

  /** What a client that cuts a file into parts of one size leaves behind: in ascending part
      number, every part but the last has this size, the last is no longer, and the cache
      holds as many bytes for each as are recorded. */
  predicate Even(parts: seq<Part>, partSize: nat) {
    var ps := SortParts(parts);
    && partSize > 0
    && (forall i :: 0 <= i < |ps| ==> ps[i].stored.Some? && |ps[i].stored.value| == ps[i].size <= partSize)
    && (forall i :: 0 <= i < |ps| - 1 ==> ps[i].size == partSize)
  }

  /** The bytes of all parts in ascending part number. */
  function Whole(parts: seq<Part>): seq<byte> { Concat(Blocks(SortParts(parts))) }

  function Sizes(ps: seq<Part>): (lens: seq<nat>)
    ensures |lens| == |ps| && forall i :: 0 <= i < |ps| ==> lens[i] == ps[i].size
  {
    seq(|ps|, i requires 0 <= i < |ps| => ps[i].size)
  }

  lemma EvenSizes(parts: seq<Part>, partSize: nat)
    requires Even(parts, partSize)
    ensures var ps := SortParts(parts);
            && SameLengths(Blocks(ps), Sizes(ps)) && EvenLengths(Sizes(ps), partSize)
            && |Whole(parts)| == Sum(Sizes(ps))
            && (|ps| > 1 ==> FirstSize(ps) == partSize)
            && (|ps| == 1 ==> FirstSize(ps) >= Sizes(ps)[0])
  {
    var ps := SortParts(parts);
    ConcatLength(Blocks(ps), Sizes(ps));
  }

  /** Main result: evenly cut parts whose size divides the chunk size are uploaded as their
      concatenation, in whatever order the chunks are written. */
  lemma EvenUploaded(parts: seq<Part>, partSize: nat, chunkSize: nat, order: seq<nat>)
    requires Even(parts, partSize) && chunkSize > 0 && chunkSize % partSize == 0
    requires Covers(order, CeilDiv(|Whole(parts)|, chunkSize))
    ensures var ps := SortParts(parts);
            Image(Blocks(ps), CeilDiv(chunkSize, FirstSize(ps)), chunkSize, |Whole(parts)|, order) == Whole(parts)
  {
    EvenSizes(parts, partSize);
    var ps := SortParts(parts);
    var lens, k, total := Sizes(ps), CeilDiv(chunkSize, FirstSize(ps)), CeilDiv(|Whole(parts)|, chunkSize);
    if |ps| > 1 { EqualPartsFit(lens, partSize, chunkSize); } else { OneChunkFits(lens, k, chunkSize, total); }
    FittingImage(Blocks(ps), lens, k, chunkSize, |Whole(parts)|, total, order);
  }

  /** Parts without a recorded size are taken to be of 10 MiB, and uploaded right if they are. */
  lemma UnsizedUploaded(parts: seq<Part>, lens: seq<nat>, chunkSize: nat, order: seq<nat>)
    requires var ps := SortParts(parts); SameLengths(Blocks(ps), lens) && ps != [] && ps[0].size == 0
    requires EvenLengths(lens, 10 * 1024 * 1024) && chunkSize > 0 && chunkSize % (10 * 1024 * 1024) == 0
    requires Covers(order, CeilDiv(|Whole(parts)|, chunkSize))
    ensures var ps := SortParts(parts);
            Image(Blocks(ps), CeilDiv(chunkSize, FirstSize(ps)), chunkSize, |Whole(parts)|, order) == Whole(parts)
  {
    var ps := SortParts(parts);
    ConcatLength(Blocks(ps), lens);
    EqualPartsFit(lens, 10 * 1024 * 1024, chunkSize);
    assert FirstSize(ps) == 10 * 1024 * 1024;
    hide FirstSize, SortParts, Blocks, EvenLengths, CeilDiv, Concat, LayoutFits, Image;
    FittingImage(Blocks(ps), lens, CeilDiv(chunkSize, FirstSize(ps)), chunkSize, |Whole(parts)|, CeilDiv(|Whole(parts)|, chunkSize), order);
  }

  // ------------------------------------------------------------------ progress

  /** Bytes of chunk c of a file. */
  function ChunkBytes(c: nat, chunkSize: nat, fileSize: nat): int {
    Min(c * chunkSize + chunkSize, fileSize) - c * chunkSize
  }

  /** Bytes of the chunks completed so far. */
  function TrueBytes(done: seq<nat>, chunkSize: nat, fileSize: nat): int {
    if done == [] then 0
    else TrueBytes(done[..|done| - 1], chunkSize, fileSize) + ChunkBytes(done[|done| - 1], chunkSize, fileSize)
  }

  /** `bytesTransferred` as reported after k completed chunks. */
  function Reported(k: nat, chunkSize: nat, fileSize: nat): int {
    Min(k * chunkSize, fileSize)
  }

  ghost predicate DistinctChunks(done: seq<nat>, total: nat) {
    && (forall i :: 0 <= i < |done| ==> done[i] < total)
    && (forall i, j :: 0 <= i < j < |done| ==> done[i] != done[j])
  }

  lemma ChunkBytesAre(c: nat, chunkSize: nat, fileSize: nat, total: nat)
    requires chunkSize > 0 && fileSize > 0 && total == CeilDiv(fileSize, chunkSize) && c < total
    ensures ChunkBytes(c, chunkSize, fileSize) ==
            if c == total - 1 then chunkSize - (total * chunkSize - fileSize) else chunkSize
    ensures 0 <= total * chunkSize - fileSize < chunkSize
  {
    assert total * chunkSize == (total - 1) * chunkSize + chunkSize;
    assert (c + 1) * chunkSize == c * chunkSize + chunkSize;
    if c < total - 1 { MulAtMost(c + 1, total - 1, chunkSize); }
  }

  lemma {:induction false} TrueBytesAre(done: seq<nat>, chunkSize: nat, fileSize: nat, total: nat)
    requires chunkSize > 0 && fileSize > 0 && total == CeilDiv(fileSize, chunkSize) && DistinctChunks(done, total)
    ensures TrueBytes(done, chunkSize, fileSize) ==
            |done| * chunkSize - if total - 1 in done then total * chunkSize - fileSize else 0
    decreases |done|
  {
    if done != [] {
      var n := |done| - 1;
      var c, before := done[n], done[..n];
      TrueBytesAre(before, chunkSize, fileSize, total);
      assert (n + 1) * chunkSize == n * chunkSize + chunkSize;
      ChunkBytesAre(c, chunkSize, fileSize, total);
      assert done == before + [c];
      assert c !in before by { assert forall i :: 0 <= i < n ==> before[i] == done[i] != done[n]; }
    }
  }

  function Range(lo: nat, hi: nat): (s: set<nat>)
    requires lo <= hi
    ensures |s| == hi - lo && forall c :: c in s <==> lo <= c < hi
    decreases hi
  {
    if lo == hi then {} else Range(lo, hi - 1) + {hi - 1}
  }

  lemma DistinctCount(done: seq<nat>, total: nat)
    requires DistinctChunks(done, total)
    ensures |done| <= total
    ensures |done| == total ==> forall c :: 0 <= c < total ==> c in done
  {
    var all := Range(0, total);
    var got := set i | 0 <= i < |done| :: done[i];
    SeqSetSize(done);
    assert got <= all;
    SubsetSize(got, all);
    if |done| == total {
      forall c | 0 <= c < total ensures c in done { assert c in all; }
    }
  }

  lemma {:induction false} SeqSetSize(done: seq<nat>)
    requires forall i, j :: 0 <= i < j < |done| ==> done[i] != done[j]
    ensures |set i | 0 <= i < |done| :: done[i]| == |done|
    decreases |done|
  {
    if done != [] {
      var n := |done| - 1;
      SeqSetSize(done[..n]);
      var before := set i | 0 <= i < |done[..n]| :: done[..n][i];
      assert (set i | 0 <= i < |done| :: done[i]) == before + {done[n]} by {
        forall i | 0 <= i < |done| ensures done[i] in before + {done[n]} {
          if i < n { assert done[..n][i] == done[i]; }
        }
      }
      assert done[n] !in before;
    }
  }

  lemma SubsetSize(a: set<nat>, b: set<nat>)
    requires a <= b
    ensures |a| <= |b| && (|a| == |b| ==> a == b)
  {
    assert b == a + (b - a) && a !! (b - a);
    assert |b| == |a| + |b - a|;
  }

  /** Whatever order chunks complete in, the reported figure is never below the true count,
      exceeds it by less than one chunk, and is the file size at the end. */
  lemma ProgressBounds(done: seq<nat>, chunkSize: nat, fileSize: nat)
    requires chunkSize > 0 && fileSize > 0 && DistinctChunks(done, CeilDiv(fileSize, chunkSize))
    ensures 0 <= Reported(|done|, chunkSize, fileSize) - TrueBytes(done, chunkSize, fileSize) < chunkSize
    ensures |done| == CeilDiv(fileSize, chunkSize) ==>
              Reported(|done|, chunkSize, fileSize) == TrueBytes(done, chunkSize, fileSize) == fileSize
  {
    var total := CeilDiv(fileSize, chunkSize);
    TrueBytesAre(done, chunkSize, fileSize, total);
    DistinctCount(done, total);
    ChunkBytesAre(total - 1, chunkSize, fileSize, total);
    assert total * chunkSize == (total - 1) * chunkSize + chunkSize;
    if |done| < total { MulAtMost(|done|, total - 1, chunkSize); }
  }

  // ------------------------------------------------------------------ upload of a cached file

  /** The range of the cached file that chunk c reads, both ends included in the source. */
  function RangeSlice(chunkSize: nat, fileSize: nat, c: nat): Slice {
    Slice(c * chunkSize, if c * chunkSize > fileSize then c * chunkSize else Min(c * chunkSize + chunkSize, fileSize), c * chunkSize)
  }

  function RangeImage(cached: seq<byte>, chunkSize: nat, fileSize: nat, order: seq<nat>): seq<byte> {
    if order == [] then Zeros(fileSize)
    else
      var sl := RangeSlice(chunkSize, fileSize, order[|order| - 1]);
      WriteAt(RangeImage(cached, chunkSize, fileSize, order[..|order| - 1]),
              cached[Min(sl.lo, |cached|)..Min(sl.hi, |cached|)], sl.offset)
  }

  function RangePlan(chunkSize: nat, fileSize: nat, order: seq<nat>): (plan: seq<Slice>)
    ensures |plan| == |order| && forall i :: 0 <= i < |order| ==> plan[i] == RangeSlice(chunkSize, fileSize, order[i])
  {
    if order == [] then []
    else RangePlan(chunkSize, fileSize, order[..|order| - 1]) + [RangeSlice(chunkSize, fileSize, order[|order| - 1])]
  }

  lemma RangeWithin(chunkSize: nat, fileSize: nat, c: nat)
    requires chunkSize > 0 && c < CeilDiv(fileSize, chunkSize)
    ensures Within(RangeSlice(chunkSize, fileSize, c), fileSize) && InPlace(RangeSlice(chunkSize, fileSize, c))
  {
    var total := CeilDiv(fileSize, chunkSize);
    MulAtMost(c, total - 1, chunkSize);
  }

  lemma {:induction false} RangeImageIsPlan(cached: seq<byte>, chunkSize: nat, order: seq<nat>)
    requires chunkSize > 0 && forall i :: 0 <= i < |order| ==> order[i] < CeilDiv(|cached|, chunkSize)
    ensures AllWithin(RangePlan(chunkSize, |cached|, order), |cached|) && AllInPlace(RangePlan(chunkSize, |cached|, order))
    ensures RangeImage(cached, chunkSize, |cached|, order)
            == Written(cached, Zeros(|cached|), RangePlan(chunkSize, |cached|, order))
    decreases |order|
  {
    forall i | 0 <= i < |order|
      ensures Within(RangeSlice(chunkSize, |cached|, order[i]), |cached|) && InPlace(RangeSlice(chunkSize, |cached|, order[i]))
    { RangeWithin(chunkSize, |cached|, order[i]); }
    if order != [] {
      var before := order[..|order| - 1];
      RangeImageIsPlan(cached, chunkSize, before);
      var plan := RangePlan(chunkSize, |cached|, order);
      assert plan[..|plan| - 1] == RangePlan(chunkSize, |cached|, before);
    }
  }

  lemma {:induction false} RangeImageLength(cached: seq<byte>, chunkSize: nat, fileSize: nat, order: seq<nat>)
    requires chunkSize > 0 && forall i :: 0 <= i < |order| ==> order[i] < CeilDiv(fileSize, chunkSize)
    ensures |RangeImage(cached, chunkSize, fileSize, order)| == fileSize
    decreases |order|
  {
    if order != [] {
      RangeImageLength(cached, chunkSize, fileSize, order[..|order| - 1]);
      RangeWithin(chunkSize, fileSize, order[|order| - 1]);
    }
  }

  lemma RangeOf(chunkSize: nat, fileSize: nat, x: nat) returns (c: nat)
    requires chunkSize > 0 && x < fileSize
    ensures c < CeilDiv(fileSize, chunkSize) && Has(RangeSlice(chunkSize, fileSize, c), x)
  {
    c := x / chunkSize;
    assert x == c * chunkSize + x % chunkSize;
    MulLess(c, CeilDiv(fileSize, chunkSize), chunkSize);
  }

  /** Uploading a cached file by chunks, in any order, reproduces it iff the announced size is
      its size. */
  lemma RangeUploadExact(cached: seq<byte>, chunkSize: nat, fileSize: nat, order: seq<nat>)
    requires chunkSize > 0 && Covers(order, CeilDiv(fileSize, chunkSize))
    ensures RangeImage(cached, chunkSize, fileSize, order) == cached <==> fileSize == |cached|
  {
    RangeImageLength(cached, chunkSize, fileSize, order);
    if fileSize == |cached| {
      RangeImageIsPlan(cached, chunkSize, order);
      var plan := RangePlan(chunkSize, fileSize, order);
      forall x | 0 <= x < |cached| ensures Reached(plan, x) {
        var c := RangeOf(chunkSize, fileSize, x);
        assert c in order;
        var i :| 0 <= i < |order| && order[i] == c;
        assert Has(plan[i], x);
      }
      PlanCompletes(cached, Zeros(fileSize), plan);
    }
  }

  // ------------------------------------------------------------------ the objects

  /** A file on the NAS. */
  class NasFile {
    var bytes: seq<byte>

    constructor () ensures bytes == [] { bytes := []; }

    method PreAllocate(size: nat)
      modifies this
      ensures bytes == Zeros(size)
    { bytes := Zeros(size); }

    method WriteChunk(data: seq<byte>, offset: nat)
      modifies this
      ensures bytes == WriteAt(old(bytes), data, offset)
    { bytes := WriteAt(bytes, data, offset); }
  }

  /** Reads the parts of one chunk into one buffer, skipping parts without an object key. */
  method ReadChunk(sorted: seq<Part>, perChunk: nat, c: nat) returns (buffer: seq<byte>)
    ensures buffer == ChunkData(Blocks(sorted), perChunk, c)
  {
    assert (c + 1) * perChunk == c * perChunk + perChunk;
    var lo, hi := ChunkLow(|sorted|, perChunk, c), ChunkLow(|sorted|, perChunk, c + 1);
    var chunkParts := sorted[lo..hi];
    ghost var blocks := Blocks(sorted)[lo..hi];
    buffer := [];
    for i := 0 to |chunkParts|
      invariant buffer == Concat(blocks[..i])
    {
      var part := chunkParts[i];
      assert blocks[..i + 1][..i] == blocks[..i] && blocks[i] == Data(part);
      if part.stored.Some? { buffer := buffer + part.stored.value; }
    }
    assert blocks[..|chunkParts|] == blocks;
  }

  method ProcessChunk(file: NasFile, sorted: seq<Part>, perChunk: nat, chunkSize: nat, fileSize: nat, c: nat, ghost order: seq<nat>)
    requires file.bytes == Image(Blocks(sorted), perChunk, chunkSize, fileSize, order)
    modifies file
    ensures file.bytes == Image(Blocks(sorted), perChunk, chunkSize, fileSize, order + [c])
  {
    var buffer := ReadChunk(sorted, perChunk, c);
    file.WriteChunk(buffer, c * chunkSize);
    assert (order + [c])[..|order|] == order;
  }

  /** uploadToNasFromParts: batches of chunks, each batch finishing in any order. */
  method UploadFromParts(file: NasFile, parts: seq<Part>, fileSize: nat, chunkSize: nat, parallel: nat)
    returns (bytesTransferred: int, ghost order: seq<nat>)
    requires chunkSize > 0 && parallel > 0
    modifies file
    ensures var sorted, total := SortParts(parts), CeilDiv(fileSize, chunkSize);
            var perChunk := CeilDiv(chunkSize, FirstSize(sorted));
            && Covers(order, total) && DistinctChunks(order, total) && |order| == total
            && file.bytes == Image(Blocks(sorted), perChunk, chunkSize, fileSize, order)
            && bytesTransferred == Reported(total, chunkSize, fileSize)
    ensures forall partSize | Even(parts, partSize) && chunkSize % partSize == 0 && fileSize == |Whole(parts)| ::
              file.bytes == Whole(parts)
  {
    hide SortParts, Blocks, FirstSize, CeilDiv, Concat;
    var sorted := SortParts(parts);
    file.PreAllocate(fileSize);
    var perChunk := CeilDiv(chunkSize, FirstSize(sorted));
    var total := CeilDiv(fileSize, chunkSize);
    var completed := 0;
    order := [];
    bytesTransferred := 0;
    var i := 0;
    while i < total
      invariant completed == |order| == Min(i, total)
      invariant DistinctChunks(order, Min(i, total)) && forall c :: c in order <==> 0 <= c < Min(i, total)
      invariant file.bytes == Image(Blocks(sorted), perChunk, chunkSize, fileSize, order)
      invariant bytesTransferred == Reported(completed, chunkSize, fileSize)
      decreases total - i
    {
      completed, bytesTransferred, order :=
        RunBatch(file, sorted, perChunk, chunkSize, fileSize, i, Min(i + parallel, total), completed, order);
      i := i + parallel;
    }
    forall partSize | Even(parts, partSize) && chunkSize % partSize == 0 && fileSize == |Whole(parts)|
      ensures file.bytes == Whole(parts)
    { EvenUploaded(parts, partSize, chunkSize, order); }
  }

  /** One batch: chunks lo to hi, finishing in any order. */
  method RunBatch(file: NasFile, sorted: seq<Part>, perChunk: nat, chunkSize: nat, fileSize: nat, lo: nat, hi: nat, completed: nat, ghost order: seq<nat>)
    returns (completed': nat, bytesTransferred: int, ghost order': seq<nat>)
    requires lo <= hi && completed == |order| == lo && DistinctChunks(order, lo)
    requires forall c :: c in order <==> 0 <= c < lo
    requires file.bytes == Image(Blocks(sorted), perChunk, chunkSize, fileSize, order)
    modifies file
    ensures completed' == |order'| == hi && DistinctChunks(order', hi)
    ensures forall c :: c in order' <==> 0 <= c < hi
    ensures file.bytes == Image(Blocks(sorted), perChunk, chunkSize, fileSize, order')
    ensures lo < hi ==> bytesTransferred == Reported(hi, chunkSize, fileSize)
  {
    completed', order', bytesTransferred := completed, order, 0;
    var batch := Range(lo, hi);
    while batch != {}
      invariant forall c :: c in batch ==> lo <= c < hi
      invariant completed' == |order'| && |order'| + |batch| == hi
      invariant DistinctChunks(order', hi)
      invariant forall c :: c in order' <==> 0 <= c < hi && c !in batch
      invariant file.bytes == Image(Blocks(sorted), perChunk, chunkSize, fileSize, order')
      invariant completed' > lo ==> bytesTransferred == Reported(completed', chunkSize, fileSize)
      decreases batch
    {
      var c :| c in batch;   // the chunk whose write finishes next
      batch := batch - {c};
      ProcessChunk(file, sorted, perChunk, chunkSize, fileSize, c, order');
      order' := order' + [c];
      completed' := completed' + 1;
      bytesTransferred := Min(completed' * chunkSize, fileSize);
    }
  }

  /** concatPartsToCache and downloadFromParts: the parts piped one after the other. */
  method ConcatParts(parts: seq<Part>) returns (merged: seq<byte>)
    ensures merged == Whole(parts)
  {
    var sorted := SortParts(parts);
    ghost var blocks := Blocks(sorted);
    merged := [];
    for i := 0 to |sorted|
      invariant merged == Concat(blocks[..i])
    {
      assert blocks[..i + 1][..i] == blocks[..i] && blocks[i] == Data(sorted[i]);
      if sorted[i].stored.Some? { merged := merged + sorted[i].stored.value; }
    }
    assert blocks[..|sorted|] == blocks;
  }

  function Lengths(ds: seq<seq<byte>>): (lens: seq<nat>)
    ensures SameLengths(ds, lens)
  {
    if ds == [] then [] else Lengths(ds[..|ds| - 1]) + [|ds[|ds| - 1]|]
  }

  /** The layout of an upload announced with the size of its parts. */
  predicate UploadFits(parts: seq<Part>, chunkSize: nat)
    requires chunkSize > 0
  {
    var sorted := SortParts(parts);
    var lens := Lengths(Blocks(sorted));
    LayoutFits(lens, CeilDiv(chunkSize, FirstSize(sorted)), chunkSize, Sum(lens), CeilDiv(Sum(lens), chunkSize))
  }

  /** The NAS file and the cache file of one upload are equal when the layout fits, as it does
      for evenly cut parts whose size divides the chunk size. */
  method UploadThenConcat(file: NasFile, parts: seq<Part>, chunkSize: nat, parallel: nat) returns (cached: seq<byte>)
    requires chunkSize > 0 && parallel > 0
    modifies file
    ensures cached == Whole(parts)
    ensures UploadFits(parts, chunkSize) ==> file.bytes == cached
    ensures forall partSize | Even(parts, partSize) && chunkSize % partSize == 0 :: file.bytes == cached
  {
    var sorted := SortParts(parts);
    ghost var ds := Blocks(sorted);
    ghost var lens := Lengths(ds);
    ConcatLength(ds, lens);
    cached := ConcatParts(parts);
    var n, order := UploadFromParts(file, parts, |cached|, chunkSize, parallel);
    if UploadFits(parts, chunkSize) {
      FittingImage(ds, lens, CeilDiv(chunkSize, FirstSize(sorted)), chunkSize, |cached|, CeilDiv(|cached|, chunkSize), order);
    }
  }

  // ------------------------------------------------------------------ sorting the parts

  predicate Ascending(ps: seq<Part>) { forall i, j :: 0 <= i < j < |ps| ==> ps[i].partNumber <= ps[j].partNumber }

  lemma {:induction false} InsertPart(p: Part, ps: seq<Part>)
    requires Ascending(ps)
    ensures Ascending(Insert(p, ps)) && multiset(Insert(p, ps)) == multiset(ps) + multiset{p}
  {
    if ps != [] && !(p.partNumber <= ps[0].partNumber) {
      var rest := ps[1..];
      InsertPart(p, rest);
      assert ps == [ps[0]] + rest;
      LeastPart(ps[0], Insert(p, rest), rest, p);
    }
  }

  lemma LeastPart(first: Part, t: seq<Part>, rest: seq<Part>, p: Part)
    requires Ascending(t) && multiset(t) == multiset(rest) + multiset{p}
    requires first.partNumber <= p.partNumber && Ascending([first] + rest)
    ensures Ascending([first] + t)
  {
    forall x | x in t ensures first.partNumber <= x.partNumber {
      assert x in multiset(t);
      if x != p {
        assert x in multiset(rest);
        var k :| 0 <= k < |rest| && rest[k] == x;
        assert ([first] + rest)[0] == first && ([first] + rest)[k + 1] == x;
      }
    }
  }

  /** The parts are used in ascending part number, none lost and none doubled. */
  lemma {:induction false} SortedParts(ps: seq<Part>)
    ensures Ascending(SortParts(ps)) && multiset(SortParts(ps)) == multiset(ps)
  {
    if ps != [] {
      SortedParts(ps[1..]);
      InsertPart(ps[0], SortParts(ps[1..]));
      assert ps == [ps[0]] + ps[1..];
    }
  }
}
