/**
 * The records and constants of crypto.go: the key and IV sizes, the
 * envelope header `message` and the key pair `keys`, and the ways an
 * operation can fail.
 */
module Records {
  import opened Bytes

  /** AES-256 key, HMAC-SHA-256 key and CTR IV lengths in bytes. */
  const EncKeySize: nat := 32
  const MacKeySize: nat := 32
  const EncIVSize: nat := 16

  /** The envelope header: the CTR IV, the MAC over the ciphertext and the ciphertext length. */
  datatype Message = Message(iv: seq<byte>, mac: seq<byte>, ctSize: int)

  /** The two independent keys written to the key file. */
  datatype Keys = Keys(encKey: seq<byte>, macKey: seq<byte>)

  /**
   * The step at which an operation gave up. Go returns a plain `error`;
   * the model names the step that produced it.
   */
  datatype Failure =
    | RandomDrawFailed        // randBytes: the random source ran dry or failed
    | StagingCreateFailed     // ioutil.TempFile
    | CipherInitFailed        // aes.NewCipher: key length is not 16, 24 or 32
    | StageCopyFailed         // io.Copy into the staging file and the MAC
    | OutputWriteFailed       // a write to the output stream w
    | KeyFileCreateFailed     // os.OpenFile in persistKeys
    | KeyFileOpenFailed       // os.Open in getKeys
    | KeyFileDecodeFailed     // base64 or gob decoding of the key file
    | LengthPrefixReadFailed  // binary.Read of the 8-byte header length
    | HeaderDecodeFailed      // gob decoding of the header
    | MacMismatch             // hmac.Equal returned false
    | IVLengthPanic           // cipher.NewCTR panics: IV length is not the AES block size

  /** The outcome of encrypt, decrypt and persistKeys: `nil` or an error. */
  datatype Outcome = Done | Failed(failure: Failure)
}
