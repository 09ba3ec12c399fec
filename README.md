# tulum: the authenticated-encryption pipeline, in Dafny

This project models `crypto.go` of tulum, a small file-encryption tool.
`encrypt` draws a 32-byte AES key, a 32-byte HMAC key and a 16-byte IV from
a random source. It streams the plaintext through AES-256-CTR into a temporary
staging file and an HMAC-SHA-256 at the same time, rewinds the staging file,
and writes the envelope

    LE64(|header|) ++ gob({IV, MAC, CTSize}) ++ ciphertext

to the output. Only then does it save the two keys, gob-encoded and
base64-encoded with a trailing newline, to the key file. `decrypt` loads the
keys, reads the 8-byte length and the header, and copies the rest of the
input into a staging file and an HMAC. It compares the MACs, and only on a match
does it decrypt the staged bytes to the output.

The model is imperative where the Go code is:

- `Streams.Reader`, `Streams.Writer`, `Staging.StagingFile`, `Authenticator.MacWriter`
  and `KeyFile.FileSystem` are classes whose methods update their fields.
- `Tulum.Encrypt` and `Tulum.Decrypt` follow the Go functions step by step,
  with the same early returns.
- Each method is proved to have exactly the effects that a pure function in
  module `Pipeline` describes: `EncryptRun` and `DecryptRun`, with their
  stages `EncryptKeyed`, `DecryptKeyed` and `DecryptPayload`.
- The lemmas in `Pipeline`, `Framing`, `KeyFile` and `Bytes` state what those
  effects guarantee.

The library primitives are parameters bundled in a `Primitives.Suite`:

- the CTR keystream is byte `i` of a function of key, IV and position, and
  CTR XORs it in byte by byte;
- HMAC is a function returning 32 bytes;
- gob and base64 are encoder/decoder pairs.

`Primitives.Lawful` is everything assumed about them:

- the codecs round-trip;
- gob fails on an empty stream;
- a header of the shape encrypt builds (a 16-byte IV, a 32-byte MAC and
  an `int64` CTSize) encodes to fewer than 2^63 bytes, so its length fits
  the `int64` prefix;
- base64 output contains no CR or LF.

These assumptions are consistent. Module `ExampleSuite` builds one concrete suite. It uses
self-delimiting stand-in codecs, a constant keystream and a constant MAC,
and `ExampleSuite.ExampleIsLawful` proves that this suite meets all of them.

Faults come from the objects themselves:

- a reader may end in a read error;
- a writer, the staging file and the scratch directory have a capacity;
- the scratch directory may refuse to create a file;
- key-file paths may be unwritable.

Bytes are integers 0..255, and `^` is `Bytes.Xor`, defined bit by bit.

Several behaviours of `crypto.go` are easy to misread. The model follows the code as written:

- `encrypt` in `crypto.go:37` takes three arguments and reads `rand.Reader`
  itself. `crypto_test.go:29` and `main.go` call it with four. The model
  follows the three-argument definition and makes the random source an
  explicit input of `Tulum.Encrypt`.
- The two keys are independent random draws (`crypto.go:38-45`). Nothing is
  derived by a KDF, and both keys are stored in the key file.
- `persistKeys` opens the key file with `O_TRUNC` (`crypto.go:186`).
  An existing key file is overwritten, not refused (`KeyFile.FileSystem.PersistKeys`).
- The MAC covers the ciphertext only. The IV and `CTSize` in the header are
  not authenticated: a changed IV is accepted and decrypts to something else
  (`Pipeline.HeaderNotAuthenticated`). `CTSize` is never read back
  (`Pipeline.CtSizeIgnored`).
- The key file is one unwrapped base64 line followed by `\n`. It has no
  76-column wrapping.
- The header is read through `io.LimitReader(r, msgSize)`. A window shorter
  than `msgSize` is not an error in itself; only a read error or a gob failure
  is (`Framing.ReadFrame`).
- `cipher.NewCTR` panics when the IV is not 16 bytes long (`crypto.go:164`).
  The model reports this as `IVLengthPanic`.

## Model

| member | source | states |
|---|---|---|
| Bytes.EncodeInt64 | crypto.go:100-101 | the length prefix `binary.Write` emits for an `int64` is exactly 8 bytes, two's complement, least significant first |
| Bytes.DecodeInt64 | crypto.go:138-140 | `binary.Read` of 8 bytes gives a value in the signed 64-bit range |
| Bytes.LittleEndianRoundTrip | crypto.go:100-101 | the value of the k-byte little-endian encoding of any u < 256^k is u |
| Bytes.LittleEndianOfValue | crypto.go:138-140 | every byte string is the little-endian encoding of its own value |
| Bytes.Int64RoundTrip | crypto.go:100-101 | decoding the 8-byte encoding of any `int64` gives it back, so the header length survives the prefix |
| Bytes.Int64Canonical | crypto.go:138-140 | every 8-byte prefix is the encoding of the value decoded from it |
| Bytes.XorTwice | crypto.go:69-71 | XORing a byte twice with the same keystream byte gives back the byte |
| Bytes.DropNewlines | crypto.go:214 | the base64 decoder's input after CR and LF are dropped contains no newline and is no longer than before |
| Bytes.DropNewlinesOfLine | crypto.go:200 | a newline-free line followed by the `\n` persistKeys appends reads back as the line alone |
| Primitives.Ctr | crypto.go:69-76 | CTR preserves length: the ciphertext is as long as the plaintext |
| Primitives.CtrInvolution | crypto.go:164-170 | applying CTR with the same key and IV twice is the identity, so decrypting undoes encrypting |
| Streams.Accepted | crypto.go:101-109 | a write to w keeps all of b exactly when b fits, and otherwise the prefix that fits |
| Streams.AcceptedConcat | crypto.go:101-109 | writing a and then b keeps what one write of a ++ b keeps, with writing stopped at the first short write |
| Streams.Reader.ReadFull | crypto.go:179 | `io.CopyN` yields exactly n bytes and succeeds iff n bytes remain; otherwise it fails after taking what there was |
| Streams.Reader.ReadAtMost | crypto.go:145 | draining `io.LimitReader` yields at most n bytes and fails only when it stops early on a reader that errors |
| Streams.Reader.ReadAll | crypto.go:76 | `io.Copy` from the reader takes everything that remains and fails iff the reader ends in an error |
| Streams.Writer.Write | crypto.go:101-109 | a write succeeds iff b fits the room left; w then holds its old contents plus the accepted part of b |
| Staging.Overwrite | crypto.go:76 | writing at an offset keeps the bytes before it, replaces what follows with b and grows the file as needed |
| Staging.StagingFile.constructor | crypto.go:53-56 | `ioutil.TempFile` gives an empty file at offset 0 |
| Staging.StagingFile.Write | crypto.go:71-76 | the temp file takes the part of b that fits its capacity at the offset, and fails if b does not fit |
| Staging.StagingFile.Rewind | crypto.go:83-85 | `Seek(0, 0)` moves the offset to the start and leaves the contents as they are |
| Staging.StagingFile.ReadRest | crypto.go:107 | reading the staging file from the offset yields exactly the bytes after the offset |
| Authenticator.MacWriter.constructor | crypto.go:61 | `hmac.New` starts with nothing absorbed, under the given key |
| Authenticator.MacWriter.Write | crypto.go:71-74 | the MAC absorbs exactly the bytes written to it, in order |
| Authenticator.MacWriter.Sum | crypto.go:89 | `Sum(nil)` is the HMAC of everything absorbed and changes nothing |
| Framing.Frame | crypto.go:96-109 | the envelope is 8 + header + ciphertext bytes long; the header and the ciphertext sit after the prefix |
| Framing.ReadFrame | crypto.go:138-148 | decrypt fails on the prefix iff fewer than 8 bytes arrive; on success the input is prefix ++ header ++ rest, with the header no longer than the declared size |
| Framing.FrameRoundTrip | crypto.go:138-148 | parsing a frame recovers exactly its header and its ciphertext, whatever follows |
| Framing.FrameUnique | crypto.go:96-109 | an input whose header was read in full is the frame of that header and of the rest |
| KeyFile.KeyFileBytes | crypto.go:192-200 | the key file ends in the newline persistKeys appends |
| KeyFile.LoadKeys | crypto.go:207-222 | getKeys fails to open iff the path is missing; otherwise any failure is a decoding failure |
| KeyFile.KeyFileRoundTrip | crypto.go:185-222 | the keys persistKeys writes are exactly the keys getKeys reads back at that path, whatever else the files hold |
| KeyFile.FileSystem.PersistKeys | crypto.go:185-205 | an unwritable path fails and changes nothing; otherwise the key file is replaced (O_TRUNC) by the encoded keys and no other file changes |
| KeyFile.FileSystem.GetKeys | crypto.go:207-222 | getKeys returns what the key file decodes to, or the failing step |
| Pipeline.DrawnKeys | crypto.go:38-45 | the encryption key and the MAC key are 32 bytes each |
| Pipeline.DrawnIV | crypto.go:46-49 | the IV is 16 bytes |
| Pipeline.EncryptSucceeds | crypto.go:37-121 | encrypt succeeds iff all three draws, the temp file, the plaintext copy, every write to w and the key-file open succeed |
| Pipeline.EnvelopeLayout | crypto.go:87-109 | the envelope is LE64(len(header)) ++ header ++ ct; it parses back to that header and ct; the header decodes to {IV, HMAC(macKey, ct), len(pt)}; len(ct) = len(pt); CTR of ct gives pt |
| Pipeline.EncryptPersistsLast | crypto.go:104-118 | keys are saved iff encrypt succeeds, only once the whole envelope is in w, and they are the drawn 32-byte and 32-byte keys |
| Pipeline.EncryptStopsAtFirstFailure | crypto.go:37-121 | a failure saves no keys; nothing is written before the plaintext is staged; a failed write leaves a proper prefix of the envelope; aes.NewCipher never fails on the drawn key |
| Pipeline.DecryptOfFrame | crypto.go:138-172 | on a well-framed input decrypt succeeds iff the MAC matches, the key and IV have AES lengths and the output fits; it then writes CTR of the ciphertext, and a mismatch writes nothing |
| Pipeline.EncryptThenDecrypt | crypto_test.go:28-42 | decrypting what encrypt wrote, with the key file encrypt wrote, gives back the plaintext, even when the key path already held a file |
| Pipeline.DecryptAuthenticatesFirst | crypto.go:148-170 | decrypt writes output or succeeds only if the input authenticates, and it writes only a prefix of the decryption of the authenticated bytes; an input that does not authenticate gives an error and no output |
| Pipeline.FlippedMacByteRejected | crypto.go:155-158 | in an envelope with a one-block IV, flipping the low bit of the last stored MAC byte gives a MAC mismatch and no output |
| Pipeline.HeaderNotAuthenticated | crypto.go:155-164 | a header with another IV or CTSize but the genuine MAC is accepted and decrypts under the substituted IV |
| Pipeline.CtSizeIgnored | crypto.go:144-148 | any CTSize in the header gives the same plaintext, because everything after the header is taken as ciphertext |
| Pipeline.DecryptRejectsShortInput | crypto.go:138-142 | an input shorter than 8 bytes fails with no output; with the keys and the temp file in place the failure is the length prefix |
| Pipeline.DecryptRejectsNonPositiveLength | crypto.go:144-147 | a declared header length of zero or less gives gob an empty stream, so decrypt fails on the header with no output |
| Tulum.RandBytes | crypto.go:177-183 | randBytes returns exactly n bytes, the next n of the source, or an error with no bytes |
| Tulum.DrawKeys | crypto.go:38-49 | the three draws succeed iff 80 random bytes are available; they are the keys and the IV of the run specification, and at most 80 bytes are consumed |
| Tulum.MultiWrite | crypto.go:73 | `io.MultiWriter(tmp, mac)`: the temp file takes the bytes first; on success the temp file and the MAC both hold them; on a short write the temp file holds the part that fit and the MAC has absorbed nothing |
| Tulum.StageCiphertext | crypto.go:69-79 | the whole plaintext is read and CTR-encrypted; the copy succeeds iff the ciphertext fits the temp file and the reader does not fail, and then the temp file and the MAC both hold exactly the ciphertext |
| Tulum.WriteEnvelope | crypto.go:100-109 | the three writes to w succeed iff the whole frame fits, and w gains exactly the accepted part of the frame |
| Tulum.WriteBody | crypto.go:104-109 | the header and then the staged ciphertext: w gains the accepted part of header ++ ciphertext |
| Tulum.Encrypt | crypto.go:37-121 | the result, the bytes written to w and the key files equal those of the run specification; at most 80 random bytes are consumed; the plaintext is consumed iff staging is reached |
| Tulum.EncryptWithKeys | crypto.go:53-120 | encrypt after the draws has exactly the effects that the specification from the temp file on describes |
| Tulum.ReadHeader | crypto.go:138-147 | reading the prefix and the header fails as the frame parser does; otherwise it leaves the rest of the input unread and returns the gob decoding of the header |
| Tulum.Decrypt | crypto.go:123-175 | the result and the bytes written to w equal those of the run specification, and anything written implies that the input authenticated |
| Tulum.DecryptWithKeys | crypto.go:129-147 | decrypt after getKeys has exactly the effects that the specification from the temp file on describes |
| Tulum.DecryptMessage | crypto.go:148-174 | staging, MAC comparison and decryption of the payload have exactly the effects of the payload specification |
| Tulum.EncryptToBuffer | crypto_test.go:28-31 | encrypting into an in-memory buffer has the effects of the run specification with unlimited room |
| Tulum.DecryptBuffer | crypto_test.go:36-39 | decrypting from an in-memory buffer has the effects of the run specification with unlimited room |
| Tulum.IntegrationRoundTrip | crypto_test.go:11-43 | the integration test passes iff the random source supplies 80 bytes, and it then recovers the plaintext |
| ExampleSuite.ExampleIsLawful | crypto.go:96-99 | a concrete suite of codecs meets every assumption made of gob and base64: round trips, failure on empty input, short headers and no CR or LF in the encoded text |
| ExampleSuite.ExampleRoundTrip | crypto_test.go:28-42 | with that concrete suite, encrypting any plaintext shorter than 2^63 bytes succeeds on 80 random bytes, and decrypting the result with the saved key file gives the plaintext back |

## Left out

- The AES block cipher, SHA-256 and HMAC internals, gob and base64 are library code. They are parameters constrained only by `Primitives.Lawful`.
- Randomness quality is not modelled: the random source is any byte string. So is the test's "ciphertext differs from plaintext" check (`crypto_test.go:32-34`), which is probabilistic.
- Streams are modelled as whole: `io.Copy` and `cipher.StreamWriter`/`StreamReader` chunking, partial reads and buffering are not modelled.
- `hmac.Equal` is plain equality; its constant-time behaviour is not modelled.
- These steps are taken never to fail:
  - `gob.Encoder.Encode` of the header and of the keys;
  - `wr.Close()`;
  - `tmp.Seek(0, 0)`;
  - the writes to the key file after a successful `os.OpenFile`;
  - `enc.Close()`.
- KeyFile.FileSystem.PersistKeys: a failure after the open (`crypto.go:194-202`) is not modelled, because those are I/O faults of an already-open file.
- The staging file's deferred `Close` and `os.Remove`, the file mode `0600`, and the `/tmp` path are not modelled; they are cleanup and permissions, not data flow.
- The debug `fmt.Println("hey")` (`crypto.go:126`) is not modelled, because it only prints.
- Framing.ReadFrame: the gob decoder is taken to consume the whole limited window and to decode from those bytes. How much it actually reads ahead inside the window is gob's internal buffering.
- Pipeline.EncryptThenDecrypt: the plaintext must be shorter than 2^63 bytes. `io.Copy` counts it in an `int64` (`crypto.go:76`), and only then is the header known to fit the `int64` length prefix. Tulum.IntegrationRoundTrip has the same bound; the test encrypts 2048 bytes.
- Pipeline.EnvelopeLayout and Pipeline.FlippedMacByteRejected: the IV must be 16 bytes and the plaintext shorter than 2^63 bytes. These are the envelopes encrypt produces (`crypto.go:46`, `crypto.go:76`).
- Pipeline.HeaderNotAuthenticated and Pipeline.CtSizeIgnored: the substituted CTSize must lie in the `int64` range, since the field is an `int64` (`crypto.go:29`).
- Pipeline.DecryptOfFrame: the encoded header must be shorter than 2^63 bytes. A longer one would wrap around in `int64(b.Len())` (`crypto.go:100`).
- Records.Message: `CTSize` is an unbounded `int`, not an `int64`. Encrypt stores the number of bytes copied, and nothing ever reads the field back.
- main.go is not part of this model: flag parsing, input selection, exit codes and the `toGC`/`gcLock` clean-up registry. The test's `gc()` call is not modelled for the same reason.
