/**
 * File contents as byte sequences, and the effect of the two file writes the
 * downloaders perform: a zero fill of a freshly truncated file, and a write of a
 * body after seeking to an offset.
 */
module Bytes {

  newtype byte = b: int | 0 <= b < 256

  function Max(a: int, b: int): int { if a < b then b else a }

  /** `total` zero bytes, as `b"\0" * total` produces them (nothing for total <= 0). */
  function Zeros(total: int): (r: seq<byte>)
    ensures |r| == Max(0, total)
    ensures total <= 0 <==> r == []
    ensures forall k :: 0 <= k < |r| ==> r[k] == 0
  {
    seq(Max(0, total), _ => 0)
  }

  /**
   * The bytes of a file after seeking to `offset` and writing `body`. Writing past
   * the end extends the file, and a seek past the end leaves a gap of zero bytes.
   * Writing nothing changes nothing, wherever the file position is.
   */
  function Overwrite(s: seq<byte>, offset: nat, body: seq<byte>): (r: seq<byte>)
    ensures |r| == if body == [] then |s| else Max(|s|, offset + |body|)
    ensures forall k :: offset <= k < offset + |body| ==> r[k] == body[k - offset]
    ensures forall k :: 0 <= k < |s| && !(offset <= k < offset + |body|) ==> r[k] == s[k]
    ensures body != [] ==> forall k :: |s| <= k < offset ==> r[k] == 0
  {
    if body == [] then s
    else
    var padded := if offset <= |s| then s else s + Zeros(offset - |s|);
    var tail := if offset + |body| < |padded| then padded[offset + |body|..] else [];
    padded[..offset] + body + tail
  }

  /** The bytes of a stream delivered as a sequence of chunks, in order. */
  function Concat(chunks: seq<seq<byte>>): (r: seq<byte>)
    ensures chunks != [] ==>
      && |chunks[|chunks| - 1]| <= |r|
      && r[|r| - |chunks[|chunks| - 1]|..] == chunks[|chunks| - 1]
  {
    if chunks == [] then [] else Concat(chunks[..|chunks| - 1]) + chunks[|chunks| - 1]
  }

  /** Bytes already streamed stay as they are while later chunks are appended. */
  lemma {:induction false} ConcatPrefix(chunks: seq<seq<byte>>, j: nat)
    requires j <= |chunks|
    ensures Concat(chunks[..j]) <= Concat(chunks)
  {
    if j < |chunks| {
      var init := chunks[..|chunks| - 1];
      ConcatPrefix(init, j);
      assert init[..j] == chunks[..j];
    } else {
      assert chunks[..j] == chunks;
    }
  }

  /** Sum of the chunk lengths: the number of bytes received from a stream. */
  function TotalLength(chunks: seq<seq<byte>>): nat
  {
    if chunks == [] then 0 else TotalLength(chunks[..|chunks| - 1]) + |chunks[|chunks| - 1]|
  }

  /** The stream's bytes number exactly as many as the chunks delivered. */
  lemma {:induction false} ConcatLength(chunks: seq<seq<byte>>)
    ensures |Concat(chunks)| == TotalLength(chunks)
  {
    if chunks != [] {
      ConcatLength(chunks[..|chunks| - 1]);
    }
  }
}
