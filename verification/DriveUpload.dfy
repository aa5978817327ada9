/**
 The resumable upload to Drive: an incoming stream of arbitrary pieces is cut into
 blocks of 256 KiB, and the blocks are sent in order with their byte ranges.
 */
module DriveUpload {
  import opened Bytes
  import opened ContentRange
  import opened Decimal
  import opened Storage

  const DRIVE_CHUNK: nat := 256 * 1024

  datatype DriveError = StreamFailed | EmptyStream | ConnectionFailed | UploadFailed(offset: nat) | BadReply | NoFileId

  datatype Put = Put(contentRange: string, contentLength: nat, content: bytes)

  /** The body of an answer: not a JSON object, or one that names a file id or does not. */
  datatype Body = Unreadable | Readable(id: Option<string>)

  /** Drive's answer to one block, or a request that breaks off in transit. */
  datatype Reply = Broken | Reply(status: int, body: Body)

  // ---- blocks ----

  /** The blocks of a content. */
  function Blocks(s: bytes): seq<bytes> {
    if s == [] then []
    else if |s| <= DRIVE_CHUNK then [s]
    else [s[..DRIVE_CHUNK]] + Blocks(s[DRIVE_CHUNK..])
  }

  /** `blocks` spell out `s`, all of them full except the last, which is not empty. */
  predicate IsBlocking(blocks: seq<bytes>, s: bytes) {
    && Concat(blocks) == s
    && (forall i :: 0 <= i < |blocks| - 1 ==> |blocks[i]| == DRIVE_CHUNK)
    && (blocks != [] ==> 1 <= |blocks[|blocks| - 1]| <= DRIVE_CHUNK)
  }

  lemma ConcatCons(block: bytes, rest: seq<bytes>)
    ensures Concat([block] + rest) == block + Concat(rest)
  {
    ConcatJoin([block], rest);
    assert [block][..0] == [];
  }

  lemma {:induction false} BlocksBlock(s: bytes)
    ensures IsBlocking(Blocks(s), s)
  {
    if |s| > DRIVE_CHUNK {
      BlocksBlock(s[DRIVE_CHUNK..]);
      ConcatCons(s[..DRIVE_CHUNK], Blocks(s[DRIVE_CHUNK..]));
    } else if s != [] {
      assert [s][..0] == [];
    }
  }

  /** There is only one way to cut a content into such blocks. */
  lemma {:induction false} BlockingUnique(blocks: seq<bytes>, s: bytes)
    requires IsBlocking(blocks, s)
    ensures blocks == Blocks(s)
  {
    if blocks != [] {
      var rest := blocks[1..];
      assert blocks == [blocks[0]] + rest;
      ConcatCons(blocks[0], rest);
      if rest == [] {
        assert s == blocks[0];
      } else {
        assert rest[|rest| - 1] == blocks[|blocks| - 1];
        NonEmptyConcat(rest);
        assert s[..DRIVE_CHUNK] == blocks[0] && s[DRIVE_CHUNK..] == Concat(rest);
        BlockingUnique(rest, Concat(rest));
      }
    }
  }

  lemma NonEmptyConcat(blocks: seq<bytes>)
    requires blocks != [] && blocks[|blocks| - 1] != []
    ensures Concat(blocks) != []
  {
  }

  /** However the stream was fragmented, the blocks are those of its bytes. */
  method Reblock(pieces: seq<bytes>) returns (chunks: seq<bytes>)
    ensures chunks == Blocks(Concat(pieces))
  {
    chunks := [];
    var leftover: bytes := [];
    for i := 0 to |pieces|
      invariant Concat(chunks) + leftover == Concat(pieces[..i])
      invariant |leftover| < DRIVE_CHUNK
      invariant forall k :: 0 <= k < |chunks| ==> |chunks[k]| == DRIVE_CHUNK
    {
      ConcatPrefix(pieces, i);
      leftover := leftover + pieces[i];
      while |leftover| >= DRIVE_CHUNK
        invariant Concat(chunks) + leftover == Concat(pieces[..i + 1])
        invariant forall k :: 0 <= k < |chunks| ==> |chunks[k]| == DRIVE_CHUNK
      {
        ConcatAppend(chunks, leftover[..DRIVE_CHUNK]);
        chunks := chunks + [leftover[..DRIVE_CHUNK]];
        leftover := leftover[DRIVE_CHUNK..];
      }
    }
    assert pieces[..|pieces|] == pieces;
    if leftover != [] {
      ConcatAppend(chunks, leftover);
      chunks := chunks + [leftover];
    }
    BlockingUnique(chunks, Concat(pieces));
  }

  // ---- the upload ----

  function Offset(blocks: seq<bytes>, i: nat): nat
    requires i <= |blocks|
  {
    |Concat(blocks[..i])|
  }

  predicate AllNonEmpty(blocks: seq<bytes>) { forall i :: 0 <= i < |blocks| ==> blocks[i] != [] }

  /** The byte range the `i`-th block occupies; only the final one names the total. */
  function BlockExtent(blocks: seq<bytes>, i: nat): Extent
    requires i < |blocks| && AllNonEmpty(blocks)
  {
    var total := if i == |blocks| - 1 then Some(|Concat(blocks)|) else None;
    Extent(Offset(blocks, i), Offset(blocks, i) + |blocks[i]| - 1, total)
  }

  function PutOf(blocks: seq<bytes>, i: nat): Put
    requires i < |blocks| && AllNonEmpty(blocks)
  {
    Put(Print(BlockExtent(blocks, i)), |blocks[i]|, blocks[i])
  }

  /** The upload goes on after this answer: a good status, and a JSON object where one is looked at. */
  predicate GoesOn(reply: Reply) {
    && reply.Reply? && reply.status in {200, 201, 308}
    && (reply.status in {200, 201} ==> reply.body.Readable?)
  }

  predicate Incomplete(reply: Reply) { reply.Reply? && reply.status == 308 }

  /** The answer says that the file is finished and names `id`, or no id. */
  predicate Names(reply: Reply, id: Option<string>) {
    reply.Reply? && reply.status in {200, 201} && reply.body == Readable(id)
  }

  /** The last of the first `n` answers that is not a 308 names `id`. */
  predicate LastNames(reply: nat -> Reply, n: nat, id: Option<string>) {
    exists k :: 0 <= k < n && Names(reply(k), id) && forall i :: k < i < n ==> Incomplete(reply(i))
  }

  /** `id` is the one named last, or none if all answers were a 308. */
  predicate LastNamed(reply: nat -> Reply, n: nat, id: Option<string>) {
    (id == None && forall i :: 0 <= i < n ==> Incomplete(reply(i))) || LastNames(reply, n, id)
  }

  lemma BlocksNonEmpty(s: bytes)
    ensures AllNonEmpty(Blocks(s))
  {
  }

  predicate InOrder(puts: seq<Put>, blocks: seq<bytes>)
    requires AllNonEmpty(blocks)
  {
    |puts| <= |blocks| && forall i :: 0 <= i < |puts| ==> puts[i] == PutOf(blocks, i)
  }

  /** The request for block `i`: 256 KiB from there on or what is left, and where they are; the last names the total. */
  predicate IsRequest(put: Put, content: bytes, i: nat) {
    var first := i * 26_2144;
    var end := if first + 26_2144 < |content| then first + 26_2144 else |content|;
    && first < end
    && put.content == content[first..end]
    && put.contentLength == end - first
    && put.contentRange == "bytes " + PrintNat(first) + "-" + PrintNat(end - 1) + "/"
                           + if end == |content| then PrintNat(|content|) else "*"
  }

  /** The requests for the first blocks of the content, in order. */
  predicate AreRequests(puts: seq<Put>, content: bytes) {
    forall i :: 0 <= i < |puts| ==> IsRequest(puts[i], content, i)
  }

  predicate AllSent(puts: seq<Put>, content: bytes) { |puts| * 26_2144 >= |content| > (|puts| - 1) * 26_2144 }

  /** Every block is sent and answered well, and the last finishing answer names `id`. */
  predicate Finished(content: bytes, reply: nat -> Reply, puts: seq<Put>, id: Option<string>) {
    && AllSent(puts, content)
    && (forall i :: 0 <= i < |puts| ==> GoesOn(reply(i)))
    && LastNamed(reply, |puts|, id)
  }

  /** The last block sent is the first that is not answered well, and `e` says how. */
  predicate StoppedBy(content: bytes, reply: nat -> Reply, puts: seq<Put>, e: DriveError) {
    && puts != []
    && var k := |puts| - 1;
       && k * 26_2144 < |content|
       && (forall i :: 0 <= i < k ==> GoesOn(reply(i)))
       && !GoesOn(reply(k))
       && match reply(k)
          case Broken => e == ConnectionFailed
          case Reply(status, _) =>
            if status in {200, 201} then e == BadReply else status != 308 && e == UploadFailed(k * 26_2144)
  }

  /** What an upload of `content` comes to, given Drive's answers. */
  predicate Uploaded(content: bytes, reply: nat -> Reply, r: Result<(nat, string), DriveError>, puts: seq<Put>) {
    if content == [] then r == Err(EmptyStream) && puts == []
    else
      && AreRequests(puts, content)
      && match r
         case Ok((total, id)) => total == |content| && id != "" && Finished(content, reply, puts, Some(id))
         case Err(NoFileId) =>
           Finished(content, reply, puts, None) || Finished(content, reply, puts, Some(""))
         case Err(e) => StoppedBy(content, reply, puts, e)
  }

  /**
   Exactly when an upload succeeds: the content is not empty, every block is answered
   with 200, 201 or 308, every 200 or 201 with a JSON object, and the last of these
   names an id that is not empty. The result is then the content's length and that id.
   */
  lemma UploadSucceedsIff(content: bytes, reply: nat -> Reply, r: Result<(nat, string), DriveError>, puts: seq<Put>,
      n: nat, id: string)
    requires Uploaded(content, reply, r, puts)
    requires n * 26_2144 >= |content| > (n - 1) * 26_2144
    ensures r == Ok((|content|, id)) <==>
            && content != [] && id != ""
            && (forall i :: 0 <= i < n ==>
                  && reply(i).Reply? && reply(i).status in {200, 201, 308}
                  && (reply(i).status in {200, 201} ==> reply(i).body.Readable?))
            && exists k :: 0 <= k < n && reply(k).status in {200, 201} && reply(k).body == Readable(Some(id))
                           && forall i :: k < i < n ==> reply(i).status == 308
    ensures r.Ok? ==> r.value.0 == |content| && |puts| == n
  {
  }

  /** How an upload fails at block `k`, all blocks before it answered well: the error, and that nothing follows. */
  lemma UploadFailsAt(content: bytes, reply: nat -> Reply, r: Result<(nat, string), DriveError>, puts: seq<Put>,
      k: nat)
    requires Uploaded(content, reply, r, puts) && k * 26_2144 < |content|
    requires forall i :: 0 <= i < k ==>
               && reply(i).Reply? && reply(i).status in {200, 201, 308}
               && (reply(i).status in {200, 201} ==> reply(i).body.Readable?)
    ensures reply(k) == Broken ==> r == Err(ConnectionFailed) && |puts| == k + 1
    ensures reply(k).Reply? && reply(k).status !in {200, 201, 308} ==>
              r == Err(UploadFailed(k * 26_2144)) && |puts| == k + 1
    ensures reply(k).Reply? && reply(k).status in {200, 201} && reply(k).body == Unreadable ==>
              r == Err(BadReply) && |puts| == k + 1
  {
  }

  method StreamChunksToDrive(stream: ByteStream, reply: nat -> Reply)
    returns (r: Result<(nat, string), DriveError>, puts: seq<Put>)
    ensures stream.end != Completed ==> r == Err(StreamFailed) && puts == []
    ensures stream.end == Completed ==> Uploaded(Concat(stream.pieces), reply, r, puts)
  {
    var chunks := Reblock(stream.pieces);
    if stream.end != Completed {
      return Err(StreamFailed), [];
    }
    ghost var content := Concat(stream.pieces);
    BlocksBlock(content);
    BlocksNonEmpty(content);
    if chunks == [] {
      return Err(EmptyStream), [];
    }
    var sent, offset, fileId, failure;
    sent, offset, fileId, failure, puts := SendBlocks(chunks, reply);
    AreRequestsOfBlocks(puts, content);
    if failure.Some? {
      StoppedAt(content, reply, puts, failure.value);
      return Err(failure.value), puts;
    }
    assert chunks[..|chunks|] == chunks;
    AllBlocksSent(puts, content);
    r := if fileId == None || fileId == Some("") then Err(NoFileId) else Ok((offset, fileId.value));
  }

  /** Why the loop stopped at the block it sent last. */
  predicate Fails(blocks: seq<bytes>, reply: Reply, k: nat, e: DriveError)
    requires k < |blocks|
  {
    match reply
    case Broken => e == ConnectionFailed
    case Reply(status, _) =>
      if status in {200, 201} then e == BadReply else status != 308 && e == UploadFailed(Offset(blocks, k))
  }

  /** The upload loop over the buffered blocks; it stops at the first that is not answered well. */
  method SendBlocks(chunks: seq<bytes>, reply: nat -> Reply)
    returns (sent: nat, offset: nat, fileId: Option<string>, failure: Option<DriveError>, puts: seq<Put>)
    requires chunks != [] && AllNonEmpty(chunks)
    ensures sent <= |chunks| && offset == Offset(chunks, sent)
    ensures forall i :: 0 <= i < sent ==> GoesOn(reply(i))
    ensures LastNamed(reply, sent, fileId)
    ensures failure.None? <==> sent == |chunks|
    ensures failure.Some? ==> !GoesOn(reply(sent)) && Fails(chunks, reply(sent), sent, failure.value)
    ensures |puts| == (if failure.Some? then sent + 1 else sent) && InOrder(puts, chunks)
  {
    var totalSize := TotalSize(chunks);
    sent, offset, fileId, failure, puts := 0, 0, None, None, [];
    while sent < |chunks|
      invariant sent <= |chunks| && offset == Offset(chunks, sent) && failure == None
      invariant |puts| == sent && InOrder(puts, chunks)
      invariant forall i :: 0 <= i < sent ==> GoesOn(reply(i))
      invariant LastNamed(reply, sent, fileId)
    {
      var put := MakePut(chunks, sent, offset, totalSize);
      InOrderStep(puts, chunks, put);
      puts := puts + [put];
      var resp := reply(sent);
      if resp.Broken? {
        failure := Some(ConnectionFailed);
        break;
      }
      if resp.status != 200 && resp.status != 201 && resp.status != 308 {
        failure := Some(UploadFailed(offset));
        break;
      }
      if resp.status == 200 || resp.status == 201 {
        if resp.body.Unreadable? {
          failure := Some(BadReply);
          break;
        }
        fileId := resp.body.id;
      }
      LastNamedStep(reply, sent, fileId);
      OffsetStep(chunks, sent);
      offset := offset + |chunks[sent]|;
      sent := sent + 1;
    }
  }

  lemma LastNamedStep(reply: nat -> Reply, n: nat, id: Option<string>)
    requires Names(reply(n), id) || (Incomplete(reply(n)) && LastNamed(reply, n, id))
    ensures LastNamed(reply, n + 1, id)
  {
    if Names(reply(n), id) {
      assert LastNames(reply, n + 1, id);
    } else if LastNames(reply, n, id) {
      var k :| 0 <= k < n && Names(reply(k), id) && forall i :: k < i < n ==> Incomplete(reply(i));
      assert forall i :: k < i < n + 1 ==> Incomplete(reply(i));
    }
  }

  method MakePut(chunks: seq<bytes>, i: nat, offset: nat, totalSize: nat) returns (put: Put)
    requires i < |chunks| && AllNonEmpty(chunks)
    requires offset == Offset(chunks, i) && totalSize == |Concat(chunks)|
    ensures put == PutOf(chunks, i)
  {
    var isFinal := i == |chunks| - 1;
    var extent := Extent(offset, offset + |chunks[i]| - 1, if isFinal then Some(totalSize) else None);
    put := Put(Print(extent), |chunks[i]|, chunks[i]);
  }

  lemma InOrderStep(puts: seq<Put>, blocks: seq<bytes>, put: Put)
    requires AllNonEmpty(blocks) && InOrder(puts, blocks) && |puts| < |blocks|
    requires put == PutOf(blocks, |puts|)
    ensures InOrder(puts + [put], blocks)
  {
  }

  lemma OffsetStep(blocks: seq<bytes>, i: nat)
    requires i < |blocks|
    ensures Offset(blocks, i + 1) == Offset(blocks, i) + |blocks[i]|
  {
    ConcatPrefix(blocks, i);
  }

  method TotalSize(chunks: seq<bytes>) returns (total: nat)
    ensures total == |Concat(chunks)|
  {
    total := 0;
    for i := 0 to |chunks|
      invariant total == |Concat(chunks[..i])|
    {
      ConcatPrefix(chunks, i);
      total := total + |chunks[i]|;
    }
    assert chunks[..|chunks|] == chunks;
  }

  // ---- the ranges ----

  lemma ExtentsTile(s: bytes, i: nat)
    requires i < |Blocks(s)| && AllNonEmpty(Blocks(s))
    ensures var blocks := Blocks(s);
            var e := BlockExtent(blocks, i);
            && e.first == (if i == 0 then 0 else BlockExtent(blocks, i - 1).last + 1)
            && e.last < |s| && s[e.first..e.last + 1] == blocks[i]
            && e.total == (if e.last + 1 == |s| then Some(|s|) else None)
  {
    var blocks := Blocks(s);
    BlocksBlock(s);
    BlockBounds(blocks, i);
    OffsetStep(blocks, i);
    if i > 0 {
      OffsetStep(blocks, i - 1);
    }
    if i == |blocks| - 1 {
      assert blocks[..i + 1] == blocks;
    } else {
      BlockBounds(blocks, i + 1);
    }
  }

  /**
   The Content-Range texts of an upload read back as extents that tile the content:
   they start at zero, each begins where the last ended and covers exactly its
   block, and only the final one names the total, which is where it ends.
   */
  lemma RangesTile(s: bytes, i: nat)
    requires i < |Blocks(s)|
    ensures AllNonEmpty(Blocks(s))
    ensures Read(PutOf(Blocks(s), i).contentRange) == Some(BlockExtent(Blocks(s), i))
    ensures var blocks := Blocks(s);
            var e := BlockExtent(blocks, i);
            && e.first == (if i == 0 then 0 else BlockExtent(blocks, i - 1).last + 1)
            && e.last < |s| && s[e.first..e.last + 1] == blocks[i]
            && e.total == (if e.last + 1 == |s| then Some(|s|) else None)
  {
    BlocksNonEmpty(s);
    ExtentsTile(s, i);
    ReadPrinted(BlockExtent(Blocks(s), i));
  }

  lemma BlockBounds(blocks: seq<bytes>, i: nat)
    requires i < |blocks|
    ensures Offset(blocks, i) + |blocks[i]| <= |Concat(blocks)|
    ensures Concat(blocks)[Offset(blocks, i)..Offset(blocks, i) + |blocks[i]|] == blocks[i]
  {
    ConcatPrefix(blocks, i);
    ConcatJoin(blocks[..i + 1], blocks[i + 1..]);
    assert blocks == blocks[..i + 1] + blocks[i + 1..];
  }

  // ---- where the blocks are ----

  /** There is a block `i` as long as `i` times 256 KiB is inside the content. */
  lemma {:induction false} BlockExists(s: bytes, i: nat)
    ensures i < |Blocks(s)| <==> i * 26_2144 < |s|
  {
    if |s| > DRIVE_CHUNK && i > 0 {
      BlockExists(s[DRIVE_CHUNK..], i - 1);
    }
  }

  /** It starts there. */
  lemma {:induction false} BlockStarts(s: bytes, i: nat)
    requires i < |Blocks(s)|
    ensures Offset(Blocks(s), i) == i * 26_2144
  {
    if |s| > DRIVE_CHUNK && i > 0 {
      var rest := Blocks(s[DRIVE_CHUNK..]);
      BlockStarts(s[DRIVE_CHUNK..], i - 1);
      assert Blocks(s)[..i] == [s[..DRIVE_CHUNK]] + rest[..i - 1];
      ConcatCons(s[..DRIVE_CHUNK], rest[..i - 1]);
    } else if i > 0 {
      assert false;
    }
  }

  /** And ends 256 KiB later, or with the content. */
  lemma {:induction false} BlockEnds(s: bytes, i: nat)
    requires i < |Blocks(s)|
    ensures i * 26_2144 + |Blocks(s)[i]| == if (i + 1) * 26_2144 < |s| then (i + 1) * 26_2144 else |s|
  {
    if |s| > DRIVE_CHUNK && i > 0 {
      BlockEnds(s[DRIVE_CHUNK..], i - 1);
    }
  }

  /** The loop's request for a block is the one a reader of the content expects. */
  lemma RequestOfBlock(s: bytes, i: nat)
    requires i < |Blocks(s)| && AllNonEmpty(Blocks(s))
    ensures IsRequest(PutOf(Blocks(s), i), s, i)
  {
    BlockExists(s, i);
    BlockStarts(s, i);
    BlockEnds(s, i);
    ExtentsTile(s, i);
  }

  lemma AreRequestsOfBlocks(puts: seq<Put>, s: bytes)
    requires AllNonEmpty(Blocks(s)) && InOrder(puts, Blocks(s))
    ensures AreRequests(puts, s)
  {
    forall i | 0 <= i < |puts|
      ensures IsRequest(puts[i], s, i)
    {
      RequestOfBlock(s, i);
    }
  }

  lemma AllBlocksSent(puts: seq<Put>, s: bytes)
    requires s != [] && |puts| == |Blocks(s)|
    ensures AllSent(puts, s)
  {
    BlockExists(s, |puts|);
    BlockExists(s, |puts| - 1);
  }

  lemma StoppedAt(s: bytes, reply: nat -> Reply, puts: seq<Put>, e: DriveError)
    requires puts != [] && |puts| <= |Blocks(s)|
    requires var k := |puts| - 1;
             && (forall i :: 0 <= i < k ==> GoesOn(reply(i)))
             && !GoesOn(reply(k)) && Fails(Blocks(s), reply(k), k, e)
    ensures StoppedBy(s, reply, puts, e)
  {
    BlockExists(s, |puts| - 1);
    BlockStarts(s, |puts| - 1);
  }
}
