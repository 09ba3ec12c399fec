/**
 * The ciphertext envelope: an 8-byte little-endian int64 giving the length
 * of the encoded header, the encoded header, and then the raw ciphertext.
 */
module Framing {
  import opened Bytes
  import opened Results
  import opened Records
  import opened Streams

  /** What encrypt writes to w: length prefix, header, ciphertext. */
  function Frame(header: seq<byte>, ct: seq<byte>): (r: seq<byte>)
    ensures |r| == 8 + |header| + |ct|
    ensures r[8..8 + |header|] == header && r[8 + |header|..] == ct
  {
    EncodeInt64(|header|) + header + ct
  }

  /** How decrypt splits its input: the declared size, the header bytes read under that limit, and the rest. */
  datatype Parsed = Parsed(size: int, header: seq<byte>, rest: seq<byte>)

  /** io.LimitReader(r, n) yields nothing at all when n is not positive. */
  function Window(size: int): nat {
    if size <= 0 then 0 else size
  }

  /**
   * The reading side of the frame in decrypt: binary.Read of the prefix
   * through io.LimitReader(r, 8) fails unless eight bytes are there; the
   * header is then read through io.LimitReader(r, size), which simply
   * stops early at EOF and fails only on a read error; everything after it
   * is ciphertext, however long.
   */
  function ReadFrame(input: Source): (r: Result<Parsed, Failure>)
    ensures r == Failure(LengthPrefixReadFailed) <==> |input.data| < 8
    ensures r.Failure? ==> r.error in {LengthPrefixReadFailed, HeaderDecodeFailed}
    ensures r.Success? ==>
              && input.data == input.data[..8] + r.value.header + r.value.rest
              && r.value.size == DecodeInt64(input.data[..8])
              && |r.value.header| <= Window(r.value.size)
  {
    if |input.data| < 8 then Failure(LengthPrefixReadFailed)
    else
      var size := DecodeInt64(input.data[..8]);
      var after := input.data[8..];
      var take := Min(Window(size), |after|);
      if take < Window(size) && input.broken then Failure(HeaderDecodeFailed)
      else
        assert input.data == input.data[..8] + after[..take] + after[take..];
        Success(Parsed(size, after[..take], after[take..]))
  }

  /** Reading back a frame recovers exactly its header and its ciphertext. */
  lemma FrameRoundTrip(header: seq<byte>, ct: seq<byte>, broken: bool)
    requires |header| < Int64Bound
    ensures ReadFrame(Source(Frame(header, ct), broken)) == Success(Parsed(|header|, header, ct))
  {
    var f := Frame(header, ct);
    assert f[..8] == EncodeInt64(|header|);
    Int64RoundTrip(|header|);
  }

  /** Conversely, an input whose header was read in full is the frame of what was read. */
  lemma FrameUnique(input: Source)
    requires ReadFrame(input).Success?
    requires ReadFrame(input).value.size == |ReadFrame(input).value.header|
    ensures input.data == Frame(ReadFrame(input).value.header, ReadFrame(input).value.rest)
  {
    var p := ReadFrame(input).value;
    Int64Canonical(input.data[..8]);
  }
}
