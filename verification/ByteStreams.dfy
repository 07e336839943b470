/** An asynchronous reader: every read takes some non-empty piece of what is left. */
module ByteStreams {
  import opened Bytes

  class ByteReader {
    var remaining: bytes

    constructor (content: bytes)
      ensures remaining == content
    {
      remaining := content;
    }

    /** `read` into a buffer of `capacity` bytes; an empty piece means end of stream. */
    method Read(capacity: nat) returns (piece: bytes)
      requires capacity > 0
      modifies this
      ensures piece + remaining == old(remaining)
      ensures |piece| <= capacity
      ensures piece == [] <==> old(remaining) == []
    {
      if remaining == [] {
        return [];
      }
      var n: nat :| 1 <= n <= capacity && n <= |remaining|;
      piece := remaining[..n];
      remaining := remaining[n..];
    }
  }
}
