/**
 Bounded reading of an upload (product_image_sanitizer.py): the step before the scanner.
 */
module ImageIntake {
  import opened Common

  const CHUNK_BYTES: nat := 65536
  const MAX_RAW_BYTES: nat := 10485760

  // An upload stream: reads may be short, and are empty only at the end.
  class ByteStream {
    var rest: bytes

    constructor (contents: bytes)
      ensures rest == contents
    {
      rest := contents;
    }

    method Read(limit: nat) returns (chunk: bytes)
      requires limit > 0
      modifies this
      ensures |chunk| <= limit && old(rest) == chunk + rest
      ensures chunk == [] <==> old(rest) == []
    {
      if rest == [] {
        return [];
      }
      var n: nat :| 0 < n <= limit && n <= |rest|;
      chunk, rest := rest[..n], rest[n..];
    }
  }

  datatype Intake = Accepted(data: bytes) | TooLarge | Empty

  // `bounded_image_read`: however the stream splits its bytes, the whole upload is
  // returned exactly when it has between 1 byte and the limit, and no more than one
  // byte past the limit is ever taken from the stream.
  method BoundedImageRead(stream: ByteStream) returns (r: Intake)
    modifies stream
    ensures r.Accepted? ==> r.data == old(stream.rest)
    ensures r.Accepted? <==> 1 <= |old(stream.rest)| <= 10_485_760
    ensures r.TooLarge? <==> |old(stream.rest)| > 10_485_760
    ensures |old(stream.rest)| - |stream.rest| <= MAX_RAW_BYTES + 1
  {
    var data: bytes := [];
    while true
      invariant data + stream.rest == old(stream.rest) && |data| <= MAX_RAW_BYTES
      decreases |stream.rest|
    {
      var room := MAX_RAW_BYTES + 1 - |data|;
      var chunk := stream.Read(if room < CHUNK_BYTES then room else CHUNK_BYTES);
      if chunk == [] {
        break;
      }
      data := data + chunk;
      if |data| > MAX_RAW_BYTES {
        return TooLarge;
      }
    }
    if data == [] {
      return Empty;
    }
    return Accepted(data);
  }
}
