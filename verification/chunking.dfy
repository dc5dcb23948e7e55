/**
 `chunkBuffer`: cutting a file's bytes into consecutive 1 MiB slices for the
 streamed upload.
 */
module Chunking {
  import opened Seqs

  newtype Byte = b: int | 0 <= b < 256

  /** The slice size, 1024 * 1024 bytes. */
  const ChunkSize: nat := 1024 * 1024

  /** The chunks laid end to end, in order. */
  function Flatten(chunks: seq<seq<Byte>>): seq<Byte> {
    if chunks == [] then [] else Flatten(chunks[..|chunks| - 1]) + chunks[|chunks| - 1]
  }

  /**
   Pushes `content[i .. i + ChunkSize]` (cut short at the end, as `Buffer.slice`
   does) while `i` is before the end. Laid end to end the chunks give back the
   content; every chunk but the last is a full 1 MiB, the last is non-empty and
   at most 1 MiB, and empty content gives no chunk at all.
   */
  method ChunkBuffer(content: seq<Byte>) returns (result: seq<seq<Byte>>)
    ensures Flatten(result) == content
    ensures forall k :: 0 <= k < |result| - 1 ==> |result[k]| == ChunkSize
    ensures forall k :: 0 <= k < |result| ==> 0 < |result[k]| <= ChunkSize
    ensures |result| == (|content| + ChunkSize - 1) / ChunkSize
    ensures result == [] <==> content == []
  {
    var size := ChunkSize;
    result := [];
    var len := |content|;
    var i := 0;
    while i < len
      invariant i == |result| * size
      invariant i <= len || (result != [] && (i - size) < len)
      invariant Flatten(result) == content[..Min(i, len)]
      invariant forall k :: 0 <= k < |result| - 1 ==> |result[k]| == size
      invariant i <= len ==> forall k :: 0 <= k < |result| ==> |result[k]| == size
      invariant forall k :: 0 <= k < |result| ==> 0 < |result[k]| <= size
    {
      var chunk := content[i..Min(i + size, len)];
      assert (result + [chunk])[..|result|] == result;
      assert content[..Min(i + size, len)] == content[..i] + chunk;
      assert (|result| + 1) * size == |result| * size + size;
      result := result + [chunk];
      i := i + size;
    }
    ChunkCount(|result|, len);
  }

  /**
   `n` chunks reach the end of `len` bytes, and `n - 1` do not, exactly when
   `n` is `len / ChunkSize` rounded up.
   */
  lemma ChunkCount(n: nat, len: nat)
    requires len <= n * ChunkSize
    requires n == 0 || n * ChunkSize - ChunkSize < len
    ensures n == (len + ChunkSize - 1) / ChunkSize
  {
  }
}
