/**
 * The library primitives the pipeline is built from, as parameters rather
 * than implementations: the AES-CTR keystream, HMAC-SHA-256, and the gob
 * and base64 encodings. A `Suite` bundles one choice of each; `Lawful`
 * states the only facts the model takes about them.
 */
module Primitives {
  import opened Bytes
  import opened Results
  import opened Records

  /** AES block size: the IV length that cipher.NewCTR accepts. */
  const AesBlockSize: nat := 16
  /** Length of an HMAC-SHA-256 tag. */
  const DigestSize: nat := 32

  /** The key lengths aes.NewCipher accepts (AES-128, AES-192, AES-256). */
  predicate ValidAesKeySize(n: nat) {
    n == 16 || n == 24 || n == 32
  }

  /**
   * Byte i of the CTR keystream for a key and an IV. How AES produces it is
   * left open; what matters is that it depends only on key, IV and position.
   */
  type Keystream = (seq<byte>, seq<byte>, nat) -> byte

  type Digest = d: seq<byte> | |d| == DigestSize witness seq(32, _ => 0)

  /** HMAC-SHA-256 of a message under a key. */
  type MacFunction = (seq<byte>, seq<byte>) -> Digest

  /** An encoding and its decoder; decoding may fail. */
  datatype Codec<!T> = Codec(encode: T -> seq<byte>, decode: seq<byte> -> Option<T>)

  ghost predicate RoundTrips<T(!new)>(c: Codec<T>) {
    forall x: T :: c.decode(c.encode(x)) == Some(x)
  }

  datatype Suite = Suite(
    keystream: Keystream,
    hmac: MacFunction,
    header: Codec<Message>,      // gob encoding of *message
    keyRecord: Codec<Keys>,      // gob encoding of *keys
    base64: Codec<seq<byte>>)    // base64.StdEncoding

  /**
   * A header of the shape encrypt builds and gob can store: a one-block IV,
   * a full HMAC tag and a CTSize in the `int64` range.
   */
  predicate Int64Sized(m: Message) {
    |m.iv| == AesBlockSize && |m.mac| == DigestSize && -Int64Bound <= m.ctSize < Int64Bound
  }

  /**
   * What the model assumes of the libraries: every codec round-trips; gob
   * reports EOF on an empty stream; the gob encoding of a header of that
   * shape is a few dozen bytes, so its length fits an int64; the standard
   * base64 alphabet has no CR or LF.
   */
  ghost predicate Lawful(s: Suite) {
    && RoundTrips(s.header)
    && RoundTrips(s.keyRecord)
    && RoundTrips(s.base64)
    && s.header.decode([]) == None
    && (forall m :: Int64Sized(m) ==> |s.header.encode(m)| < Int64Bound)
    && (forall b :: NoNewlines(s.base64.encode(b)))
  }

  /**
   * AES-CTR over a whole stream: byte i is XORed with keystream byte i. A
   * cipher.StreamWriter or StreamReader applies the same transformation
   * chunk by chunk.
   */
  function Ctr(ks: Keystream, key: seq<byte>, iv: seq<byte>, data: seq<byte>): (r: seq<byte>)
    ensures |r| == |data|
  {
    seq(|data|, i requires 0 <= i < |data| => Xor(data[i], ks(key, iv, i)))
  }

  /** Counter mode is its own inverse: decrypting is encrypting again. */
  lemma CtrInvolution(ks: Keystream, key: seq<byte>, iv: seq<byte>, data: seq<byte>)
    ensures Ctr(ks, key, iv, Ctr(ks, key, iv, data)) == data
  {
    var once := Ctr(ks, key, iv, data);
    var twice := Ctr(ks, key, iv, once);
    forall i | 0 <= i < |data|
      ensures twice[i] == data[i]
    {
      XorTwice(data[i], ks(key, iv, i));
    }
  }
}
