/**
 * The streaming HMAC of `hmac.New(sha256.New, key)`: a hash.Hash that
 * absorbs every byte written to it and whose `Sum(nil)` is the HMAC of
 * all of them, in order.
 */
module Authenticator {
  import opened Bytes
  import opened Primitives

  class MacWriter {
    const prf: MacFunction
    const key: seq<byte>
    var absorbed: seq<byte>

    /** hmac.New: nothing absorbed yet. */
    constructor (prf: MacFunction, key: seq<byte>)
      ensures this.prf == prf && this.key == key && absorbed == []
    {
      this.prf := prf;
      this.key := key;
      absorbed := [];
    }

    /** mac.Write(b): a hash never reports a write error. */
    method Write(b: seq<byte>)
      modifies this`absorbed
      ensures absorbed == old(absorbed) + b
    {
      absorbed := absorbed + b;
    }

    /** mac.Sum(nil): the tag over every byte absorbed so far; the state is unchanged. */
    method Sum() returns (d: Digest)
      ensures d == prf(key, absorbed)
    {
      d := prf(key, absorbed);
    }
  }
}
