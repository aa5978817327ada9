/**
 Byte strings, the result types shared by every module, and the few facts about
 concatenating pieces of a stream that the transfer pipeline rests on.
 */
module Bytes {

  type byte = b: int | 0 <= b < 256

  type bytes = seq<byte>

  const NEWLINE: byte := 0x0A

  datatype Option<+T> = None | Some(value: T)

  datatype Result<+T, +E> = Ok(value: T) | Err(error: E)

  /** The bytes of a stream that arrives as a sequence of pieces. */
  function Concat(pieces: seq<bytes>): bytes {
    if pieces == [] then [] else Concat(pieces[..|pieces| - 1]) + pieces[|pieces| - 1]
  }

  lemma ConcatAppend(pieces: seq<bytes>, piece: bytes)
    ensures Concat(pieces + [piece]) == Concat(pieces) + piece
  {
  }

  lemma ConcatPrefix(pieces: seq<bytes>, i: nat)
    requires i < |pieces|
    ensures Concat(pieces[..i + 1]) == Concat(pieces[..i]) + pieces[i]
  {
    assert pieces[..i + 1] == pieces[..i] + [pieces[i]];
    ConcatAppend(pieces[..i], pieces[i]);
  }

  lemma {:induction false} ConcatJoin(left: seq<bytes>, right: seq<bytes>)
    ensures Concat(left + right) == Concat(left) + Concat(right)
  {
    if right == [] {
      assert left + right == left;
    } else {
      var last := |right| - 1;
      assert left + right == (left + right[..last]) + [right[last]];
      ConcatAppend(left + right[..last], right[last]);
      ConcatJoin(left, right[..last]);
    }
  }

  /** Python's clamping of a slice bound: negative bounds count from the end. */
  function SliceBound(length: nat, i: int): (r: nat)
    ensures r <= length
  {
    if i < 0 then (if length + i < 0 then 0 else length + i)
    else if i > length then length
    else i
  }

  /** Python's `s[lo:hi]`, defined for all integers. */
  function Slice<T>(s: seq<T>, lo: int, hi: int): seq<T> {
    var from := SliceBound(|s|, lo);
    var to := SliceBound(|s|, hi);
    if from < to then s[from..to] else []
  }

  /** Python's `s[lo:]`. */
  function SliceFrom<T>(s: seq<T>, lo: int): seq<T> {
    s[SliceBound(|s|, lo)..]
  }

  function Min(a: int, b: int): int { if a <= b then a else b }

  function Max(a: int, b: int): int { if a >= b then a else b }
}
