/**
 Putting the fetched chunks together: failures are dropped, the rest is sorted by
 start, and the declared ranges must cover the file without a gap.
 */
module Assembly {
  import opened Bytes
  import opened FetchChunk
  import opened Ranges

  type Chunks = seq<ChunkResult>

  type FetchResult = Result<ChunkResult, FetchError>

  datatype DownloadError =
    | NoPeersFound | NoTrustedPeers | AllFetchesFailed
    | Gap(expected: int, got: int) | Incomplete(got: int)
    | HashMismatch

  // ---- dropping failures ----

  function Successes(results: seq<FetchResult>): Chunks {
    if results == [] then []
    else
      var last := results[|results| - 1];
      Successes(results[..|results| - 1]) + if last.Ok? then [last.value] else []
  }

  lemma {:induction false} SuccessMembers(results: seq<FetchResult>)
    ensures forall c :: c in Successes(results) <==> Ok(c) in results
  {
    if results != [] {
      var front, last := results[..|results| - 1], results[|results| - 1];
      SuccessMembers(front);
      assert results == front + [last];
    }
  }

  method CollectChunks(results: seq<FetchResult>) returns (chunks: Chunks)
    ensures chunks == Successes(results)
  {
    chunks := [];
    for i := 0 to |results|
      invariant chunks == Successes(results[..i])
    {
      assert results[..i + 1][..i] == results[..i];
      if results[i].Ok? {
        chunks := chunks + [results[i].value];
      }
    }
    assert results[..|results|] == results;
  }

  // ---- sorting ----

  predicate Sorted(s: Chunks) {
    forall i, j :: 0 <= i < j < |s| ==> s[i].rangeStart <= s[j].rangeStart
  }

  /** The chunks that start at `k`, in order. */
  function StartingAt(s: Chunks, k: int): Chunks {
    if s == [] then []
    else
      var last := s[|s| - 1];
      StartingAt(s[..|s| - 1], k) + if last.rangeStart == k then [last] else []
  }

  /** `t` is `s` sorted by start, chunks with equal starts keeping their order. */
  ghost predicate StableSortOf(t: Chunks, s: Chunks) {
    Sorted(t) && forall k :: StartingAt(t, k) == StartingAt(s, k)
  }

  function Insert(s: Chunks, c: ChunkResult): Chunks {
    if s == [] || s[|s| - 1].rangeStart <= c.rangeStart then s + [c]
    else Insert(s[..|s| - 1], c) + [s[|s| - 1]]
  }

  function SortByStart(s: Chunks): Chunks {
    if s == [] then [] else Insert(SortByStart(s[..|s| - 1]), s[|s| - 1])
  }

  lemma StartingAtSnoc(s: Chunks, c: ChunkResult, k: int)
    ensures StartingAt(s + [c], k) == StartingAt(s, k) + if c.rangeStart == k then [c] else []
  {
  }

  lemma {:induction false} InsertSorted(s: Chunks, c: ChunkResult)
    requires Sorted(s)
    ensures Sorted(Insert(s, c))
    ensures forall x :: x in Insert(s, c) <==> x in s || x == c
  {
    if s != [] {
      assert s == s[..|s| - 1] + [s[|s| - 1]];
      if s[|s| - 1].rangeStart > c.rangeStart {
        InsertSorted(s[..|s| - 1], c);
        var front := Insert(s[..|s| - 1], c);
        forall i | 0 <= i < |front|
          ensures front[i].rangeStart <= s[|s| - 1].rangeStart
        {
          assert front[i] in front;
        }
      }
    }
  }

  lemma {:induction false} InsertStable(s: Chunks, c: ChunkResult, k: int)
    ensures StartingAt(Insert(s, c), k) == StartingAt(s, k) + if c.rangeStart == k then [c] else []
  {
    if s == [] || s[|s| - 1].rangeStart <= c.rangeStart {
      StartingAtSnoc(s, c, k);
    } else {
      var front, last := s[..|s| - 1], s[|s| - 1];
      InsertStable(front, c, k);
      StartingAtSnoc(Insert(front, c), last, k);
    }
  }

  lemma {:induction false} SortIsStable(s: Chunks)
    ensures StableSortOf(SortByStart(s), s)
  {
    if s != [] {
      var front, last := s[..|s| - 1], s[|s| - 1];
      SortIsStable(front);
      InsertSorted(SortByStart(front), last);
      forall k
        ensures StartingAt(SortByStart(s), k) == StartingAt(s, k)
      {
        InsertStable(SortByStart(front), last, k);
      }
    }
  }

  lemma {:induction false} StartingAtHas(s: Chunks, k: int)
    ensures StartingAt(s, k) != [] <==> exists i :: 0 <= i < |s| && s[i].rangeStart == k
    ensures s != [] && s[|s| - 1].rangeStart == k ==> StartingAt(s, k)[|StartingAt(s, k)| - 1] == s[|s| - 1]
  {
    if s != [] {
      StartingAtHas(s[..|s| - 1], k);
      assert s == s[..|s| - 1] + [s[|s| - 1]];
    }
  }

  ghost predicate SameStarts(t: Chunks, u: Chunks) {
    forall k :: StartingAt(t, k) == StartingAt(u, k)
  }

  lemma LastStartsNoLater(t: Chunks, u: Chunks)
    requires Sorted(u) && SameStarts(t, u) && t != []
    ensures u != [] && u[|u| - 1].rangeStart >= t[|t| - 1].rangeStart
  {
    var k := t[|t| - 1].rangeStart;
    StartingAtHas(t, k);
    StartingAtHas(u, k);
    var i :| 0 <= i < |u| && u[i].rangeStart == k;
  }

  lemma SameLast(t: Chunks, u: Chunks)
    requires Sorted(t) && Sorted(u) && SameStarts(t, u) && t != []
    ensures u != [] && u[|u| - 1] == t[|t| - 1]
  {
    LastStartsNoLater(t, u);
    LastStartsNoLater(u, t);
    var k := t[|t| - 1].rangeStart;
    StartingAtHas(t, k);
    StartingAtHas(u, k);
  }

  lemma SameFronts(t: Chunks, u: Chunks, last: ChunkResult)
    requires SameStarts(t + [last], u + [last])
    ensures SameStarts(t, u)
  {
    forall k
      ensures StartingAt(t, k) == StartingAt(u, k)
    {
      SameFront(t, u, last, k);
    }
  }

  lemma {:induction false} SortedUnique(t: Chunks, u: Chunks)
    requires Sorted(t) && Sorted(u) && SameStarts(t, u)
    ensures t == u
    decreases |t|
  {
    if t == [] {
      if u != [] {
        SameLast(u, t);
      }
    } else {
      SameLast(t, u);
      var t', u', last := t[..|t| - 1], u[..|u| - 1], t[|t| - 1];
      assert t == t' + [last] && u == u' + [last];
      SameFronts(t', u', last);
      SortedUnique(t', u');
    }
  }

  /** A stable sort by start has only one possible result, so any such sort computes this one. */
  lemma StableSortUnique(t: Chunks, u: Chunks, s: Chunks)
    requires StableSortOf(t, s) && StableSortOf(u, s)
    ensures t == u
  {
    forall k
      ensures StartingAt(t, k) == StartingAt(u, k)
    {
      assert StartingAt(t, k) == StartingAt(s, k) == StartingAt(u, k);
    }
    SortedUnique(t, u);
  }

  lemma SameFront(t: Chunks, u: Chunks, last: ChunkResult, k: int)
    requires StartingAt(t + [last], k) == StartingAt(u + [last], k)
    ensures StartingAt(t, k) == StartingAt(u, k)
  {
    StartingAtSnoc(t, last, k);
    StartingAtSnoc(u, last, k);
    var a, b := StartingAt(t, k), StartingAt(u, k);
    var end := if last.rangeStart == k then [last] else [];
    assert (a + end)[..|a|] == a && (b + end)[..|b|] == b;
  }

  lemma SortSorted(s: Chunks)
    requires Sorted(s)
    ensures SortByStart(s) == s
  {
  }

  lemma {:induction false} SortMembers(s: Chunks)
    ensures forall c :: c in SortByStart(s) <==> c in s
  {
    if s != [] {
      SortMembers(s[..|s| - 1]);
      SortIsStable(s[..|s| - 1]);
      InsertSorted(SortByStart(s[..|s| - 1]), s[|s| - 1]);
      assert s == s[..|s| - 1] + [s[|s| - 1]];
    }
  }

  // ---- coverage ----

  /** The loop over the sorted chunks: the next position expected after them, or the first gap. */
  function Coverage(chunks: Chunks): Result<int, DownloadError> {
    if chunks == [] then Ok(0)
    else
      var last := chunks[|chunks| - 1];
      match Coverage(chunks[..|chunks| - 1])
      case Err(e) => Err(e)
      case Ok(expected) =>
        if last.rangeStart != expected then Err(Gap(expected, last.rangeStart)) else Ok(last.rangeEnd + 1)
  }

  function CoverageFault(chunks: Chunks, fileSize: int): Option<DownloadError> {
    match Coverage(chunks)
    case Err(e) => Some(e)
    case Ok(expected) => if expected != fileSize then Some(Incomplete(expected)) else None
  }

  /** The declared ranges start at zero, follow on from each other and end where the file does. */
  predicate Covers(chunks: Chunks, fileSize: int) {
    && (chunks == [] ==> fileSize == 0)
    && (chunks != [] ==> chunks[0].rangeStart == 0 && chunks[|chunks| - 1].rangeEnd + 1 == fileSize)
    && (forall i :: 0 < i < |chunks| ==> chunks[i - 1].rangeEnd + 1 == chunks[i].rangeStart)
  }

  lemma CoversFront(chunks: Chunks, end: int)
    requires chunks != []
    ensures var last := chunks[|chunks| - 1];
            Covers(chunks, end) <==> Covers(chunks[..|chunks| - 1], last.rangeStart) && last.rangeEnd + 1 == end
  {
  }

  lemma {:induction false} CoverageOk(chunks: Chunks, end: int)
    ensures Coverage(chunks) == Ok(end) <==> Covers(chunks, end)
  {
    if chunks != [] {
      CoversFront(chunks, end);
      CoverageOk(chunks[..|chunks| - 1], chunks[|chunks| - 1].rangeStart);
    }
  }

  /** The first chunk that does not start where the ones before it end, and where that is. */
  predicate GapAt(chunks: Chunks, k: nat, expected: int, got: int) {
    k < |chunks| && Covers(chunks[..k], expected) && chunks[k].rangeStart == got != expected
  }

  lemma {:induction false} GapHasPlace(chunks: Chunks) returns (k: nat)
    requires Coverage(chunks).Err?
    ensures Coverage(chunks).error.Gap?
    ensures GapAt(chunks, k, Coverage(chunks).error.expected, Coverage(chunks).error.got)
  {
    var front := chunks[..|chunks| - 1];
    if Coverage(front).Err? {
      k := GapHasPlace(front);
      assert front[..k] == chunks[..k];
    } else {
      k := |chunks| - 1;
      CoverageOk(front, Coverage(front).value);
    }
  }

  lemma GapIsReported(chunks: Chunks, k: nat, expected: int, got: int)
    requires GapAt(chunks, k, expected, got)
    ensures Coverage(chunks) == Err(Gap(expected, got))
  {
    CoverageOk(chunks[..k], expected);
    assert chunks[..k + 1][..k] == chunks[..k];
    GapStays(chunks, k + 1);
  }

  /** What the coverage check reports, said of the ranges: nothing iff they cover, else the first gap or a wrong end. */
  lemma CoverageFaultMeans(chunks: Chunks, fileSize: int)
    ensures CoverageFault(chunks, fileSize) == None <==> Covers(chunks, fileSize)
    ensures forall e :: CoverageFault(chunks, fileSize) == Some(Incomplete(e)) <==> Covers(chunks, e) && e != fileSize
    ensures forall e, g :: CoverageFault(chunks, fileSize) == Some(Gap(e, g)) <==> exists k :: GapAt(chunks, k, e, g)
  {
    CoverageOk(chunks, fileSize);
    forall e
      ensures Coverage(chunks) == Ok(e) <==> Covers(chunks, e)
    {
      CoverageOk(chunks, e);
    }
    if Coverage(chunks).Err? {
      var k := GapHasPlace(chunks);
    }
    forall e, g, k | GapAt(chunks, k, e, g)
      ensures Coverage(chunks) == Err(Gap(e, g))
    {
      GapIsReported(chunks, k, e, g);
    }
  }

  method CheckCoverage(chunks: Chunks, fileSize: int) returns (fault: Option<DownloadError>)
    ensures fault == CoverageFault(chunks, fileSize)
    ensures fault == None <==> Covers(chunks, fileSize)
  {
    CoverageOk(chunks, fileSize);
    var expectedStart := 0;
    for i := 0 to |chunks|
      invariant Coverage(chunks[..i]) == Ok(expectedStart)
    {
      assert chunks[..i + 1][..i] == chunks[..i];
      if chunks[i].rangeStart != expectedStart {
        GapStays(chunks, i + 1);
        return Some(Gap(expectedStart, chunks[i].rangeStart));
      }
      expectedStart := chunks[i].rangeEnd + 1;
    }
    assert chunks[..|chunks|] == chunks;
    fault := if expectedStart != fileSize then Some(Incomplete(expectedStart)) else None;
  }

  lemma {:induction false} GapStays(chunks: Chunks, i: nat)
    requires i <= |chunks| && Coverage(chunks[..i]).Err?
    ensures Coverage(chunks) == Coverage(chunks[..i])
  {
    if i < |chunks| {
      assert chunks[..|chunks| - 1][..i] == chunks[..i];
      GapStays(chunks[..|chunks| - 1], i);
    } else {
      assert chunks[..i] == chunks;
    }
  }

  // ---- lengths ----

  function Datas(chunks: Chunks): seq<bytes> {
    seq(|chunks|, i requires 0 <= i < |chunks| => chunks[i].data)
  }

  function DeclaredLength(chunks: Chunks): int {
    if chunks == [] then 0
    else
      var last := chunks[|chunks| - 1];
      DeclaredLength(chunks[..|chunks| - 1]) + (last.rangeEnd - last.rangeStart + 1)
  }

  predicate Consistent(chunks: Chunks) {
    forall i :: 0 <= i < |chunks| ==> |chunks[i].data| == chunks[i].rangeEnd - chunks[i].rangeStart + 1
  }

  /** Accepted ranges telescope: their declared lengths add up to the file size. */
  lemma {:induction false} DeclaredTelescopes(chunks: Chunks, end: int)
    requires Coverage(chunks) == Ok(end)
    ensures DeclaredLength(chunks) == end
  {
    if chunks != [] {
      DeclaredTelescopes(chunks[..|chunks| - 1], chunks[|chunks| - 1].rangeStart);
    }
  }

  lemma DatasFront(chunks: Chunks)
    requires chunks != []
    ensures Concat(Datas(chunks)) == Concat(Datas(chunks[..|chunks| - 1])) + chunks[|chunks| - 1].data
  {
    assert Datas(chunks)[..|chunks| - 1] == Datas(chunks[..|chunks| - 1]);
  }

  lemma {:induction false} ConsistentLength(chunks: Chunks)
    requires Consistent(chunks)
    ensures |Concat(Datas(chunks))| == DeclaredLength(chunks)
  {
    if chunks != [] {
      var front := chunks[..|chunks| - 1];
      assert forall i :: 0 <= i < |front| ==> front[i] == chunks[i];
      ConsistentLength(front);
      DatasFront(chunks);
    }
  }

  // ---- all or nothing ----

  /** A fetch of `r` that, if it succeeds, declares a range that starts there and ends no later. */
  predicate HonestFor(result: FetchResult, r: Range) {
    result.Ok? ==> result.value.rangeStart == r.start <= result.value.rangeEnd <= r.end
  }

  predicate Unclamped(result: FetchResult, r: Range) {
    result.Ok? && result.value.rangeEnd == r.end
  }

  predicate AllHonest(results: seq<FetchResult>, ranges: seq<Range>) {
    |results| == |ranges| && forall i :: 0 <= i < |ranges| ==> HonestFor(results[i], ranges[i])
  }

  /** The first `k` ranges were all fetched to their end. */
  predicate AllFetched(results: seq<FetchResult>, ranges: seq<Range>, k: nat)
    requires k <= |results| == |ranges|
  {
    forall i :: 0 <= i < k ==> Unclamped(results[i], ranges[i])
  }

  /** Where the first `k` ranges end. */
  function Boundary(ranges: seq<Range>, k: nat): int
    requires k <= |ranges|
  {
    if k == 0 then 0 else ranges[k - 1].end + 1
  }

  lemma BoundaryGrows(ranges: seq<Range>, fileSize: int, k: nat)
    requires Tiles(ranges, fileSize) && k < |ranges|
    ensures ranges[k].start == Boundary(ranges, k) < Boundary(ranges, k + 1)
  {
  }

  lemma SuccessesSnoc(results: seq<FetchResult>, k: nat)
    requires k < |results|
    ensures Successes(results[..k + 1]) == Successes(results[..k]) + if results[k].Ok? then [results[k].value] else []
  {
    assert results[..k + 1][..k] == results[..k];
  }

  lemma {:induction false} HonestSorted(results: seq<FetchResult>, ranges: seq<Range>, fileSize: int, k: nat)
    requires AllHonest(results, ranges) && Tiles(ranges, fileSize) && k <= |ranges|
    ensures Sorted(Successes(results[..k]))
    ensures forall c :: c in Successes(results[..k]) ==> c.rangeStart < Boundary(ranges, k)
  {
    if k > 0 {
      HonestSorted(results, ranges, fileSize, k - 1);
      SuccessesSnoc(results, k - 1);
      BoundaryGrows(ranges, fileSize, k - 1);
      assert HonestFor(results[k - 1], ranges[k - 1]);
      var front := Successes(results[..k - 1]);
      forall i | 0 <= i < |front|
        ensures front[i].rangeStart < ranges[k - 1].start
      {
        assert front[i] in front;
      }
    }
  }

  lemma CoverageSnoc(chunks: Chunks, c: ChunkResult)
    ensures Coverage(chunks).Ok? ==>
              Coverage(chunks + [c]) ==
              if c.rangeStart != Coverage(chunks).value then Err(Gap(Coverage(chunks).value, c.rangeStart))
              else Ok(c.rangeEnd + 1)
    ensures Coverage(chunks).Err? ==> Coverage(chunks + [c]).Err?
  {
    assert (chunks + [c])[..|chunks|] == chunks;
  }

  lemma {:induction false} HonestCoverage(results: seq<FetchResult>, ranges: seq<Range>, fileSize: int, k: nat)
    requires AllHonest(results, ranges) && Tiles(ranges, fileSize) && k <= |ranges|
    ensures Coverage(Successes(results[..k])) == Ok(Boundary(ranges, k)) <==> AllFetched(results, ranges, k)
    ensures Coverage(Successes(results[..k])).Ok? ==> Coverage(Successes(results[..k])).value <= Boundary(ranges, k)
  {
    if k > 0 {
      HonestCoverage(results, ranges, fileSize, k - 1);
      SuccessesSnoc(results, k - 1);
      BoundaryGrows(ranges, fileSize, k - 1);
      assert HonestFor(results[k - 1], ranges[k - 1]);
      assert AllFetched(results, ranges, k) <==>
             AllFetched(results, ranges, k - 1) && Unclamped(results[k - 1], ranges[k - 1]);
      if results[k - 1].Ok? {
        CoverageSnoc(Successes(results[..k - 1]), results[k - 1].value);
      } else {
        assert Successes(results[..k]) == Successes(results[..k - 1]);
      }
    }
  }

  /**
   With honest headers over the ranges of a split, the sort and the coverage check
   accept exactly when every range was fetched to its end: a single failed or
   clamped range rejects the download.
   */
  lemma AllOrNothing(results: seq<FetchResult>, ranges: seq<Range>, fileSize: int)
    requires AllHonest(results, ranges) && Tiles(ranges, fileSize)
    ensures Covers(SortByStart(Successes(results)), fileSize) <==> AllFetched(results, ranges, |ranges|)
    ensures SortByStart(Successes(results)) == Successes(results)
  {
    assert results[..|ranges|] == results;
    HonestSorted(results, ranges, fileSize, |ranges|);
    SortSorted(Successes(results));
    HonestCoverage(results, ranges, fileSize, |ranges|);
    CoverageOk(Successes(results), fileSize);
  }
}
