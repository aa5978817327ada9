/**
 Local storage: a directory of files named by hash, read in bounded pieces and
 written from a byte stream that may fail part of the way.
 */
module Storage {
  import opened Bytes

  const CHUNK_SIZE: nat := 64 * 1024

  type Files = map<string, bytes>

  datatype StorageError = FileNotFound | Failed | Interrupted

  /** How a stream ends: normally, with an error, or because the task that reads it is cancelled. */
  datatype StreamEnd = Completed | Raised | Cancelled

  datatype ByteStream = ByteStream(pieces: seq<bytes>, end: StreamEnd)

  /** The bytes of `content` at the positions `start` to `end`, both included, that exist. */
  function Segment(content: bytes, start: nat, end: int): bytes {
    var from := Min(start, |content|);
    content[from..Max(from, Min(end + 1, |content|))]
  }

  lemma SegmentsJoin(content: bytes, start: nat, middle: int, end: int)
    requires start - 1 <= middle <= end
    ensures Segment(content, start, end) == Segment(content, start, middle) + Segment(content, middle + 1, end)
  {
  }

  /** What a read of at most `wanted` bytes returns when the system offers `offered` of the `available` ones. */
  function ReadLength(available: nat, wanted: nat, offered: nat): (n: nat)
    ensures n <= available && n <= wanted
    ensures n == 0 <==> available == 0 || wanted == 0
  {
    Min(Min(available, wanted), Max(1, offered))
  }

  /** The read loop of a range: whatever each read offers, the pieces spell out the segment. */
  method ReadPieces(content: bytes, start: nat, end: int, offered: nat -> nat)
    returns (pieces: seq<bytes>, remaining: int)
    ensures Concat(pieces) == Segment(content, start, end)
    ensures forall i :: 0 <= i < |pieces| ==> 1 <= |pieces[i]| <= 6_5536
    ensures start <= end < |content| ==> remaining == 0
  {
    pieces := [];
    remaining := end - start + 1;
    var position := start;
    while remaining > 0
      invariant position + remaining == end + 1
      invariant start <= position && (start == position || remaining >= 0)
      invariant start < position ==> position <= |content|
      invariant Concat(pieces) == Segment(content, start, position - 1)
      invariant forall i :: 0 <= i < |pieces| ==> 1 <= |pieces[i]| <= CHUNK_SIZE
    {
      var available := Max(0, |content| - position);
      var length := ReadLength(available, Min(CHUNK_SIZE, remaining), offered(|pieces|));
      if length == 0 {
        break;
      }
      var piece := content[position..position + length];
      ConcatAppend(pieces, piece);
      SegmentsJoin(content, start, position - 1, position + length - 1);
      pieces := pieces + [piece];
      position := position + length;
      remaining := remaining - length;
    }
  }

  class LocalStorage {
    var files: Files

    /** Opens a root directory, which may hold files already. */
    constructor (files: Files)
      ensures this.files == files
    {
      this.files := files;
    }

    method Exists(fileHash: string) returns (found: bool)
      ensures found <==> fileHash in files
    {
      found := fileHash in files;
    }

    method GetSize(fileHash: string) returns (r: Result<nat, StorageError>)
      ensures r == if fileHash in files then Ok(|files[fileHash]|) else Err(FileNotFound)
    {
      if fileHash !in files {
        return Err(FileNotFound);
      }
      r := Ok(|files[fileHash]|);
    }

    /** Reads the bytes `start` to `end`; seeking before the start of a file is an operating system error. */
    method ReadRange(fileHash: string, start: int, end: int, offered: nat -> nat)
      returns (r: Result<seq<bytes>, StorageError>)
      ensures r.Err? <==> fileHash !in files || start < 0
      ensures r.Err? ==> r.error == if fileHash !in files then FileNotFound else Failed
      ensures r.Ok? ==> Concat(r.value) == Segment(files[fileHash], start, end)
      ensures r.Ok? ==> forall i :: 0 <= i < |r.value| ==> 1 <= |r.value[i]| <= 6_5536
    {
      if fileHash !in files {
        return Err(FileNotFound);
      }
      if start < 0 {
        return Err(Failed);
      }
      var pieces, _ := ReadPieces(files[fileHash], start, end, offered);
      r := Ok(pieces);
    }

    /**
     Persists a stream under a hash. A stream that raises leaves the key absent; a
     cancelled one is no error to the handler, and what was written stays.
     */
    method WriteStream(fileHash: string, stream: ByteStream) returns (r: Result<nat, StorageError>)
      modifies this
      ensures r == match stream.end
                   case Completed => Ok(|Concat(stream.pieces)|)
                   case Raised => Err(Failed)
                   case Cancelled => Err(Interrupted)
      ensures files == if stream.end == Raised then old(files) - {fileHash}
                       else old(files)[fileHash := Concat(stream.pieces)]
    {
      var total := 0;
      files := files[fileHash := []];
      for i := 0 to |stream.pieces|
        invariant total == |Concat(stream.pieces[..i])|
        invariant files == old(files)[fileHash := Concat(stream.pieces[..i])]
      {
        ConcatPrefix(stream.pieces, i);
        files := files[fileHash := files[fileHash] + stream.pieces[i]];
        total := total + |stream.pieces[i]|;
      }
      assert stream.pieces[..|stream.pieces|] == stream.pieces;
      if stream.end == Raised {
        files := files - {fileHash};
        return Err(Failed);
      }
      if stream.end == Cancelled {
        return Err(Interrupted);
      }
      r := Ok(total);
    }

    method Delete(fileHash: string)
      modifies this
      ensures files == old(files) - {fileHash}
    {
      files := files - {fileHash};
    }
  }

  /** Writing any chunking of a content and reading any range of it back is slicing the content. */
  method WriteThenRead(storage: LocalStorage, fileHash: string, pieces: seq<bytes>, start: nat, end: nat,
      offered: nat -> nat)
    returns (back: seq<bytes>)
    requires start <= end < |Concat(pieces)|
    modifies storage
    ensures Concat(back) == Concat(pieces)[start..end + 1]
  {
    var _ := storage.WriteStream(fileHash, ByteStream(pieces, Completed));
    var r := storage.ReadRange(fileHash, start, end, offered);
    back := r.value;
  }
}
