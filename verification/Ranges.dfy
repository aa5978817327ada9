/**
 How a download is split among its peers.
 */
module Ranges {
  import opened Bytes

  const MIN_CHUNK: nat := 256 * 1024

  /** An inclusive byte range. */
  datatype Range = Range(start: int, end: int)

  function PeersUsed(fileSize: int, peerCount: int, minChunk: int): int
    requires minChunk >= 1
  {
    Min(peerCount, Max(1, fileSize / minChunk))
  }

  function RangeAt(fileSize: int, n: int, i: int): Range
    requires n >= 1
  {
    var chunk := fileSize / n;
    Range(i * chunk, if i < n - 1 then i * chunk + chunk - 1 else fileSize - 1)
  }

  /** Divisors are positive, so integer division here is Python's floor division. */
  method SplitRanges(fileSize: int, peerCount: int, minChunk: int) returns (ranges: seq<Range>)
    requires fileSize != 0 ==> peerCount >= 1 && minChunk >= 1
    ensures ranges == if fileSize == 0 then [] else Split(fileSize, peerCount, minChunk)
    ensures fileSize >= 1 ==> Tiles(ranges, fileSize)
  {
    if fileSize == 0 {
      return [];
    }
    var actualPeers := Min(peerCount, Max(1, fileSize / minChunk));
    var chunk := fileSize / actualPeers;
    ranges := [];
    for i := 0 to actualPeers
      invariant ranges == seq(i, k => RangeAt(fileSize, actualPeers, k))
    {
      var start := i * chunk;
      var end := if i < actualPeers - 1 then start + chunk - 1 else fileSize - 1;
      ranges := ranges + [Range(start, end)];
    }
    if fileSize >= 1 {
      SplitTiles(fileSize, peerCount, minChunk);
    }
  }

  function Split(fileSize: int, peerCount: int, minChunk: int): seq<Range>
    requires peerCount >= 1 && minChunk >= 1
  {
    var n := PeersUsed(fileSize, peerCount, minChunk);
    seq(n, i => RangeAt(fileSize, n, i))
  }

  /** The ranges are not empty and partition the positions below `fileSize` in order. */
  predicate Tiles(ranges: seq<Range>, fileSize: int) {
    && ranges != []
    && ranges[0].start == 0
    && (forall i :: 0 <= i < |ranges| ==> ranges[i].start <= ranges[i].end)
    && (forall i :: 0 < i < |ranges| ==> ranges[i - 1].end + 1 == ranges[i].start)
    && ranges[|ranges| - 1].end + 1 == fileSize
  }

  lemma Products(b: int, x: int, y: int)
    requires b >= 0 && x <= y
    ensures b * x <= b * y
  {
  }

  lemma QuotientFits(a: int, b: int, c: int)
    requires b >= 1 && a / b >= c
    ensures a >= b * c
  {
    assert a == b * (a / b) + a % b;
    Products(b, c, a / b);
  }

  lemma FitsQuotient(a: int, b: int, c: int)
    requires b >= 1 && a >= b * c
    ensures a / b >= c
  {
    assert a == b * (a / b) + a % b;
    if a / b < c {
      Products(b, a / b, c - 1);
    }
  }

  /** A share of at least `c` for each of `b` is a share of at least `b` for each of `c`. */
  lemma DivideBack(a: int, b: int, c: int)
    requires b >= 1 && c >= 1
    ensures a / b >= c <==> a / c >= b
  {
    if a / b >= c {
      QuotientFits(a, b, c);
      FitsQuotient(a, c, b);
    } else if a / c >= b {
      QuotientFits(a, c, b);
      FitsQuotient(a, b, c);
    }
  }

  lemma PeersFit(fileSize: int, peerCount: int, minChunk: int)
    requires fileSize >= 1 && peerCount >= 1 && minChunk >= 1
    ensures var n := PeersUsed(fileSize, peerCount, minChunk);
            && 1 <= n <= peerCount
            && fileSize / n >= 1
            && (n > 1 ==> fileSize / n >= minChunk)
  {
    var n := PeersUsed(fileSize, peerCount, minChunk);
    if n > 1 {
      DivideBack(fileSize, minChunk, n);
    }
  }

  lemma RangeWidth(fileSize: int, n: int, i: int)
    requires n >= 1 && fileSize / n >= 1 && 0 <= i < n
    ensures var r := RangeAt(fileSize, n, i);
            && r.end + 1 - r.start >= fileSize / n
            && r.start == i * (fileSize / n)
            && (i < n - 1 ==> r.end + 1 == (i + 1) * (fileSize / n))
  {
  }

  lemma RangesLink(fileSize: int, n: int, i: int)
    requires n >= 1 && fileSize / n >= 1 && 0 < i < n
    ensures RangeAt(fileSize, n, i - 1).end + 1 == RangeAt(fileSize, n, i).start
  {
  }

  /** The split partitions the file, in order, into ranges none of which is empty. */
  lemma SplitTiles(fileSize: int, peerCount: int, minChunk: int)
    requires fileSize >= 1 && peerCount >= 1 && minChunk >= 1
    ensures Tiles(Split(fileSize, peerCount, minChunk), fileSize)
  {
    PeersFit(fileSize, peerCount, minChunk);
    var n := PeersUsed(fileSize, peerCount, minChunk);
    var ranges := Split(fileSize, peerCount, minChunk);
    forall i | 0 <= i < |ranges|
      ensures ranges[i].start <= ranges[i].end
    {
      RangeWidth(fileSize, n, i);
    }
    forall i | 0 < i < |ranges|
      ensures ranges[i - 1].end + 1 == ranges[i].start
    {
      RangesLink(fileSize, n, i);
    }
    RangeWidth(fileSize, n, 0);
  }

  /** With the program's minimum of 256 KiB: no range is shorter when there are several, and no peer more would fit. */
  lemma DefaultSplit(fileSize: int, peerCount: int)
    requires fileSize >= 1 && peerCount >= 1
    ensures var ranges := Split(fileSize, peerCount, MIN_CHUNK);
            && (|ranges| > 1 ==> forall i :: 0 <= i < |ranges| ==> ranges[i].end + 1 - ranges[i].start >= 26_2144)
            && (forall k :: 1 <= k <= peerCount && fileSize / k >= 26_2144 ==> k <= |ranges| <= peerCount)
  {
    SplitCount(fileSize, peerCount, MIN_CHUNK);
  }

  /**
   The number of ranges is the largest number of peers whose equal share reaches
   the minimum, or one; with more than one range none is below the minimum, and no
   range is left without a peer.
   */
  lemma SplitCount(fileSize: int, peerCount: int, minChunk: int)
    requires fileSize >= 1 && peerCount >= 1 && minChunk >= 1
    ensures var ranges := Split(fileSize, peerCount, minChunk);
            && 1 <= |ranges| <= peerCount
            && (|ranges| > 1 ==> forall i :: 0 <= i < |ranges| ==> ranges[i].end + 1 - ranges[i].start >= minChunk)
            && (|ranges| == 1 || fileSize / |ranges| >= minChunk)
            && (forall k :: 1 <= k <= peerCount && fileSize / k >= minChunk ==> k <= |ranges|)
  {
    PeersFit(fileSize, peerCount, minChunk);
    var n := PeersUsed(fileSize, peerCount, minChunk);
    forall i | 0 <= i < n
      ensures RangeAt(fileSize, n, i).end + 1 - RangeAt(fileSize, n, i).start >= fileSize / n
    {
      RangeWidth(fileSize, n, i);
    }
    forall k | 1 <= k <= peerCount && fileSize / k >= minChunk
      ensures k <= n
    {
      DivideBack(fileSize, k, minChunk);
    }
  }
}
