/** A stand-in for `pako.deflate` / `pako.inflate`.  The codec only relies on
    inflate undoing deflate, so deflate is modelled as a zlib stream of stored
    (uncompressed) data: a two-byte header followed by the bytes.  Inflate
    rejects anything without that header, as pako throws on a stream it cannot
    decode. */
module Compress {
  import opened Bytes
  import opened Errors

  /** The zlib header bytes (CMF 0x78, FLG 0x01). */
  const ZLIB_HEADER: seq<byte> := [0x78, 0x01]

  /** `pako.deflate(data)`. */
  function Deflate(data: seq<byte>): (c: seq<byte>)
  {
    ZLIB_HEADER + data
  }

  /** `pako.inflate(c)`, with `None` where pako throws. */
  function Inflate(c: seq<byte>): (r: Option<seq<byte>>)
  {
    if |c| >= 2 && c[..2] == ZLIB_HEADER then Some(c[2..]) else None
  }

  /** Inflating what was deflated gives the data back, and the compressed
      form is two bytes longer. */
  lemma InflateDeflate(data: seq<byte>)
    ensures Inflate(Deflate(data)) == Some(data)
    ensures |Deflate(data)| == |data| + 2
  {
    assert Deflate(data)[..2] == ZLIB_HEADER;
    assert Deflate(data)[2..] == data;
  }
}
