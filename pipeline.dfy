/**
 * encrypt and decrypt as functions of everything they read: the random
 * source, the input stream, the scratch directory, the room left in the
 * output stream and the key file system. The imperative methods in module
 * Tulum are proved to have exactly these effects; the lemmas here state
 * what the effects guarantee.
 */
module Pipeline {
  import opened Bytes
  import opened Results
  import opened Records
  import opened Primitives
  import opened Streams
  import opened Staging
  import opened Framing
  import opened KeyFile

  /** encrypt draws the encryption key, then the MAC key, then the IV. */
  const RandomNeeded: nat := EncKeySize + MacKeySize + EncIVSize

  function DrawnKeys(random: seq<byte>): (ks: Keys)
    requires |random| >= RandomNeeded
    ensures |ks.encKey| == EncKeySize && |ks.macKey| == MacKeySize
  {
    Keys(random[..EncKeySize], random[EncKeySize..EncKeySize + MacKeySize])
  }

  function DrawnIV(random: seq<byte>): (iv: seq<byte>)
    requires |random| >= RandomNeeded
    ensures |iv| == EncIVSize
  {
    random[EncKeySize + MacKeySize..RandomNeeded]
  }

  /** The header encrypt builds for a ciphertext: its IV, the MAC of the ciphertext, the number of bytes copied. */
  function HeaderFor(s: Suite, ks: Keys, iv: seq<byte>, ct: seq<byte>): Message {
    Message(iv, s.hmac(ks.macKey, ct), |ct|)
  }

  /** The complete envelope encrypt writes for a plaintext. */
  function Envelope(s: Suite, ks: Keys, iv: seq<byte>, pt: seq<byte>): seq<byte> {
    var ct := Ctr(s.keystream, ks.encKey, iv, pt);
    Frame(s.header.encode(HeaderFor(s, ks, iv, ct)), ct)
  }

  /** What an encrypt call leaves behind: its result, the bytes it wrote to w, and the keys it wrote to the key file, if any. */
  datatype EncryptEffects = EncryptEffects(outcome: Outcome, output: seq<byte>, persisted: Option<Keys>)

  /** encrypt, crypto.go:37-121, one early return per failing step. */
  function EncryptRun(s: Suite, random: seq<byte>, input: Source, tmp: TempSpace, room: Capacity, keyFileWritable: bool): EncryptEffects {
    if |random| < RandomNeeded then EncryptEffects(Failed(RandomDrawFailed), [], None)
    else EncryptKeyed(s, DrawnKeys(random), DrawnIV(random), input, tmp, room, keyFileWritable)
  }

  /** encrypt from the temp file on, once the keys and the IV are drawn. */
  function EncryptKeyed(s: Suite, ks: Keys, iv: seq<byte>, input: Source, tmp: TempSpace, room: Capacity, keyFileWritable: bool): EncryptEffects {
    if !tmp.available then EncryptEffects(Failed(StagingCreateFailed), [], None)
    else if !ValidAesKeySize(|ks.encKey|) then EncryptEffects(Failed(CipherInitFailed), [], None)
    else if !Fits(tmp.capacity, |input.data|) || input.broken then EncryptEffects(Failed(StageCopyFailed), [], None)
    else
      var envelope := Envelope(s, ks, iv, input.data);
      if !Fits(room, |envelope|) then EncryptEffects(Failed(OutputWriteFailed), Accepted(room, envelope), None)
      else if !keyFileWritable then EncryptEffects(Failed(KeyFileCreateFailed), envelope, None)
      else EncryptEffects(Done, envelope, Some(ks))
  }

  /** Whether encrypt gets as far as copying the plaintext: all three draws and the temp file succeed. */
  predicate ReachesStaging(random: seq<byte>, tmp: TempSpace) {
    |random| >= RandomNeeded && tmp.available
  }

  /** What a decrypt call leaves behind: its result and the bytes it wrote to w. */
  datatype DecryptEffects = DecryptEffects(outcome: Outcome, output: seq<byte>)

  /** decrypt, crypto.go:123-175. */
  function DecryptRun(s: Suite, files: map<Path, seq<byte>>, keyPath: Path, tmp: TempSpace, input: Source, room: Capacity): DecryptEffects {
    match LoadKeys(s, files, keyPath)
    case Failure(f) => DecryptEffects(Failed(f), [])
    case Success(ks) => DecryptKeyed(s, ks, tmp, input, room)
  }

  /** decrypt once the keys are loaded: the temp file, then the header. */
  function DecryptKeyed(s: Suite, ks: Keys, tmp: TempSpace, input: Source, room: Capacity): DecryptEffects {
    if !tmp.available then DecryptEffects(Failed(StagingCreateFailed), [])
    else
      match ReadFrame(input)
      case Failure(f) => DecryptEffects(Failed(f), [])
      case Success(p) =>
        match s.header.decode(p.header)
        case None => DecryptEffects(Failed(HeaderDecodeFailed), [])
        case Some(msg) => DecryptPayload(s, ks, tmp, msg, Source(p.rest, input.broken), room)
  }

  /** decrypt once the header is decoded: stage and check the bytes after it, then decrypt them. */
  function DecryptPayload(s: Suite, ks: Keys, tmp: TempSpace, msg: Message, payload: Source, room: Capacity): DecryptEffects {
    if !Fits(tmp.capacity, |payload.data|) || payload.broken then DecryptEffects(Failed(StageCopyFailed), [])
    else if s.hmac(ks.macKey, payload.data) != msg.mac then DecryptEffects(Failed(MacMismatch), [])
    else if !ValidAesKeySize(|ks.encKey|) then DecryptEffects(Failed(CipherInitFailed), [])
    else if |msg.iv| != AesBlockSize then DecryptEffects(Failed(IVLengthPanic), [])
    else
      var pt := Ctr(s.keystream, ks.encKey, msg.iv, payload.data);
      if Fits(room, |pt|) then DecryptEffects(Done, pt)
      else DecryptEffects(Failed(OutputWriteFailed), Accepted(room, pt))
  }

  /** The check decrypt performs before it decrypts anything: the MAC of the bytes after the header matches the header's MAC. */
  ghost predicate Authentic(s: Suite, files: map<Path, seq<byte>>, keyPath: Path, input: Source) {
    && LoadKeys(s, files, keyPath).Success?
    && ReadFrame(input).Success?
    && s.header.decode(ReadFrame(input).value.header).Some?
    && s.hmac(LoadKeys(s, files, keyPath).value.macKey, ReadFrame(input).value.rest)
       == s.header.decode(ReadFrame(input).value.header).value.mac
  }

  // ----- encrypt -----

  /** encrypt succeeds exactly when every step does. */
  lemma EncryptSucceeds(s: Suite, random: seq<byte>, input: Source, tmp: TempSpace, room: Capacity, keyFileWritable: bool)
    ensures EncryptRun(s, random, input, tmp, room, keyFileWritable).outcome == Done <==>
              && ReachesStaging(random, tmp)
              && Fits(tmp.capacity, |input.data|) && !input.broken
              && Fits(room, |Envelope(s, DrawnKeys(random), DrawnIV(random), input.data)|)
              && keyFileWritable
  {
  }

  /**
   * The envelope is the length prefix, the encoded header and the
   * ciphertext; read back, it yields that header and exactly that
   * ciphertext; the header carries the IV, the MAC of the ciphertext (not
   * of the plaintext) and the plaintext length; decrypting the ciphertext
   * under the same key and IV gives the plaintext back.
   */
  lemma EnvelopeLayout(s: Suite, ks: Keys, iv: seq<byte>, pt: seq<byte>)
    requires Lawful(s)
    requires |iv| == EncIVSize && |pt| < Int64Bound
    ensures var ct := Ctr(s.keystream, ks.encKey, iv, pt);
            var header := s.header.encode(HeaderFor(s, ks, iv, ct));
            && Envelope(s, ks, iv, pt) == EncodeInt64(|header|) + header + ct
            && ReadFrame(Source(Envelope(s, ks, iv, pt), false)) == Success(Parsed(|header|, header, ct))
            && s.header.decode(header) == Some(Message(iv, s.hmac(ks.macKey, ct), |pt|))
            && |ct| == |pt|
            && Ctr(s.keystream, ks.encKey, iv, ct) == pt
  {
    var ct := Ctr(s.keystream, ks.encKey, iv, pt);
    assert Int64Sized(HeaderFor(s, ks, iv, ct));
    var header := s.header.encode(HeaderFor(s, ks, iv, ct));
    FrameRoundTrip(header, ct, false);
    CtrInvolution(s.keystream, ks.encKey, iv, pt);
  }

  /**
   * The key file is written last: keys are persisted exactly when encrypt
   * succeeds, and only after the complete envelope is in w; the keys are the
   * first 32 and the next 32 random bytes, the IV the 16 after them.
   */
  lemma EncryptPersistsLast(s: Suite, random: seq<byte>, input: Source, tmp: TempSpace, room: Capacity, keyFileWritable: bool)
    ensures var e := EncryptRun(s, random, input, tmp, room, keyFileWritable);
            && (e.persisted.Some? <==> e.outcome == Done)
            && (e.persisted.Some? ==>
                  && |random| >= RandomNeeded
                  && e.persisted.value == DrawnKeys(random)
                  && |e.persisted.value.encKey| == 32 && |e.persisted.value.macKey| == 32 && |DrawnIV(random)| == 16
                  && e.output == Envelope(s, e.persisted.value, DrawnIV(random), input.data))
  {
  }

  /**
   * A failing step stops encrypt: nothing reaches w before the plaintext
   * has been copied, encrypted and MACed in full; a failed write to w leaves
   * a proper prefix of the envelope there; no failure persists keys; and
   * aes.NewCipher never fails on the 32-byte key encrypt draws.
   */
  lemma EncryptStopsAtFirstFailure(s: Suite, random: seq<byte>, input: Source, tmp: TempSpace, room: Capacity, keyFileWritable: bool)
    ensures var e := EncryptRun(s, random, input, tmp, room, keyFileWritable);
            && e.outcome != Failed(CipherInitFailed)
            && (e.outcome.Failed? ==> e.persisted.None?)
            && (e.output != [] ==> ReachesStaging(random, tmp) && Fits(tmp.capacity, |input.data|) && !input.broken)
            && (e.outcome in {Failed(RandomDrawFailed), Failed(StagingCreateFailed), Failed(StageCopyFailed)} ==> e.output == [])
            && (ReachesStaging(random, tmp) ==> e.output <= Envelope(s, DrawnKeys(random), DrawnIV(random), input.data))
            && (e.outcome == Failed(OutputWriteFailed) ==>
                  e.output < Envelope(s, DrawnKeys(random), DrawnIV(random), input.data))
  {
  }

  // ----- decrypt -----

  /**
   * decrypt on a well-framed envelope: it succeeds exactly when the MAC of
   * the ciphertext matches the header, the key has an AES length, the IV is
   * one block and the plaintext fits in w, and then it writes the CTR
   * decryption of the ciphertext; on a MAC mismatch it writes nothing.
   * Nothing else in the header is checked.
   */
  lemma DecryptOfFrame(s: Suite, files: map<Path, seq<byte>>, keyPath: Path, tmp: TempSpace, msg: Message, ct: seq<byte>, room: Capacity)
    requires Lawful(s)
    requires |s.header.encode(msg)| < Int64Bound
    requires LoadKeys(s, files, keyPath).Success?
    requires tmp.available && Fits(tmp.capacity, |ct|)
    ensures var ks := LoadKeys(s, files, keyPath).value;
            var run := DecryptRun(s, files, keyPath, tmp, Source(Frame(s.header.encode(msg), ct), false), room);
            && (run.outcome == Done <==>
                  s.hmac(ks.macKey, ct) == msg.mac && ValidAesKeySize(|ks.encKey|) && |msg.iv| == AesBlockSize && Fits(room, |ct|))
            && (run.outcome == Done ==> run.output == Ctr(s.keystream, ks.encKey, msg.iv, ct))
            && (s.hmac(ks.macKey, ct) != msg.mac ==> run == DecryptEffects(Failed(MacMismatch), []))
  {
    FrameRoundTrip(s.header.encode(msg), ct, false);
  }

  /**
   * Round trip: the envelope encrypt writes, decrypted with the key file
   * encrypt wrote, yields the plaintext, whatever else the file system
   * holds and whatever the key path held before.
   */
  lemma EncryptThenDecrypt(s: Suite, random: seq<byte>, pt: seq<byte>, tmp: TempSpace, room: Capacity,
                           files: map<Path, seq<byte>>, keyPath: Path, tmp': TempSpace, room': Capacity)
    requires Lawful(s)
    requires EncryptRun(s, random, Source(pt, false), tmp, room, true).outcome == Done
    requires |pt| < Int64Bound
    requires tmp'.available && Fits(tmp'.capacity, |pt|) && Fits(room', |pt|)
    ensures var e := EncryptRun(s, random, Source(pt, false), tmp, room, true);
            && e.persisted.Some?
            && DecryptRun(s, files[keyPath := KeyFileBytes(s, e.persisted.value)], keyPath, tmp', Source(e.output, false), room')
               == DecryptEffects(Done, pt)
  {
    var ks := DrawnKeys(random);
    var iv := DrawnIV(random);
    var files' := files[keyPath := KeyFileBytes(s, ks)];
    var ct := Ctr(s.keystream, ks.encKey, iv, pt);
    KeyFileRoundTrip(s, files, keyPath, ks);
    assert Int64Sized(HeaderFor(s, ks, iv, ct));
    DecryptOfFrame(s, files', keyPath, tmp', HeaderFor(s, ks, iv, ct), ct, room');
    CtrInvolution(s.keystream, ks.encKey, iv, pt);
  }

  /**
   * Verify before decrypt: decrypt writes to w, or succeeds, only if the
   * MAC over the bytes after the header matched, and what it writes is a
   * prefix of the decryption of exactly those bytes. An input that does not
   * authenticate produces an error and no output.
   */
  lemma DecryptAuthenticatesFirst(s: Suite, files: map<Path, seq<byte>>, keyPath: Path, tmp: TempSpace, input: Source, room: Capacity)
    ensures var run := DecryptRun(s, files, keyPath, tmp, input, room);
            && ((run.output != [] || run.outcome == Done) ==>
                  && Authentic(s, files, keyPath, input)
                  && tmp.available && !input.broken
                  && var ks := LoadKeys(s, files, keyPath).value;
                     var p := ReadFrame(input).value;
                     var msg := s.header.decode(p.header).value;
                     run.output <= Ctr(s.keystream, ks.encKey, msg.iv, p.rest))
            && (!Authentic(s, files, keyPath, input) ==> run.outcome.Failed? && run.output == [])
            && (run.outcome == Failed(MacMismatch) ==> !Authentic(s, files, keyPath, input))
  {
  }

  /**
   * Scenario: in an envelope with a one-block IV, the last byte of the
   * stored MAC flipped; decrypt reports a mismatch and writes nothing.
   */
  lemma FlippedMacByteRejected(s: Suite, files: map<Path, seq<byte>>, keyPath: Path, tmp: TempSpace, iv: seq<byte>, pt: seq<byte>, room: Capacity)
    requires Lawful(s)
    requires |iv| == EncIVSize && |pt| < Int64Bound
    requires LoadKeys(s, files, keyPath).Success?
    requires tmp.available && Fits(tmp.capacity, |pt|)
    ensures var ks := LoadKeys(s, files, keyPath).value;
            var ct := Ctr(s.keystream, ks.encKey, iv, pt);
            var tag := s.hmac(ks.macKey, ct);
            var tampered := Message(iv, tag[DigestSize - 1 := Xor(tag[DigestSize - 1], 1)], |ct|);
            DecryptRun(s, files, keyPath, tmp, Source(Frame(s.header.encode(tampered), ct), false), room)
            == DecryptEffects(Failed(MacMismatch), [])
  {
    var ks := LoadKeys(s, files, keyPath).value;
    var ct := Ctr(s.keystream, ks.encKey, iv, pt);
    var tag := s.hmac(ks.macKey, ct);
    var tampered := Message(iv, tag[DigestSize - 1 := Xor(tag[DigestSize - 1], 1)], |ct|);
    XorOneChanges(tag[DigestSize - 1]);
    assert tampered.mac[DigestSize - 1] != tag[DigestSize - 1];
    assert Int64Sized(tampered);
    DecryptOfFrame(s, files, keyPath, tmp, tampered, ct, room);
  }

  /**
   * As written, the MAC covers the ciphertext only: a header with another
   * IV or another CTSize, but the genuine MAC, is accepted, and decrypt
   * writes the ciphertext decrypted under the substituted IV.
   */
  lemma HeaderNotAuthenticated(s: Suite, files: map<Path, seq<byte>>, keyPath: Path, tmp: TempSpace,
                               iv: seq<byte>, pt: seq<byte>, forgedIV: seq<byte>, forgedSize: int)
    requires Lawful(s)
    requires LoadKeys(s, files, keyPath).Success?
    requires ValidAesKeySize(|LoadKeys(s, files, keyPath).value.encKey|)
    requires |forgedIV| == AesBlockSize && -Int64Bound <= forgedSize < Int64Bound
    requires tmp.available && Fits(tmp.capacity, |pt|)
    ensures var ks := LoadKeys(s, files, keyPath).value;
            var ct := Ctr(s.keystream, ks.encKey, iv, pt);
            var forged := Message(forgedIV, s.hmac(ks.macKey, ct), forgedSize);
            DecryptRun(s, files, keyPath, tmp, Source(Frame(s.header.encode(forged), ct), false), Unlimited)
            == DecryptEffects(Done, Ctr(s.keystream, ks.encKey, forgedIV, ct))
  {
    var ks := LoadKeys(s, files, keyPath).value;
    var ct := Ctr(s.keystream, ks.encKey, iv, pt);
    assert Int64Sized(Message(forgedIV, s.hmac(ks.macKey, ct), forgedSize));
    DecryptOfFrame(s, files, keyPath, tmp, Message(forgedIV, s.hmac(ks.macKey, ct), forgedSize), ct, Unlimited);
  }

  /** As written, CTSize is never compared with anything: any int64 in its place decrypts to the same plaintext. */
  lemma CtSizeIgnored(s: Suite, random: seq<byte>, pt: seq<byte>, files: map<Path, seq<byte>>, keyPath: Path, tmp: TempSpace, anySize: int)
    requires Lawful(s)
    requires |random| >= RandomNeeded && -Int64Bound <= anySize < Int64Bound
    requires tmp.available && Fits(tmp.capacity, |pt|)
    ensures var ks := DrawnKeys(random);
            var iv := DrawnIV(random);
            var ct := Ctr(s.keystream, ks.encKey, iv, pt);
            var header := Message(iv, s.hmac(ks.macKey, ct), anySize);
            DecryptRun(s, files[keyPath := KeyFileBytes(s, ks)], keyPath, tmp, Source(Frame(s.header.encode(header), ct), false), Unlimited)
            == DecryptEffects(Done, pt)
  {
    var ks := DrawnKeys(random);
    var iv := DrawnIV(random);
    var files' := files[keyPath := KeyFileBytes(s, ks)];
    KeyFileRoundTrip(s, files, keyPath, ks);
    HeaderNotAuthenticated(s, files', keyPath, tmp, iv, pt, iv, anySize);
    CtrInvolution(s.keystream, ks.encKey, iv, pt);
  }

  /** An input shorter than the 8-byte prefix makes decrypt fail and write nothing; a missing key file fails first. */
  lemma DecryptRejectsShortInput(s: Suite, files: map<Path, seq<byte>>, keyPath: Path, tmp: TempSpace, input: Source, room: Capacity)
    requires |input.data| < 8
    ensures var run := DecryptRun(s, files, keyPath, tmp, input, room);
            && run.outcome.Failed? && run.output == []
            && (keyPath !in files ==> run.outcome == Failed(KeyFileOpenFailed))
            && (LoadKeys(s, files, keyPath).Success? && tmp.available ==> run.outcome == Failed(LengthPrefixReadFailed))
  {
  }

  /** A length prefix of zero or less gives the gob decoder an empty stream, so decrypt fails on the header. */
  lemma DecryptRejectsNonPositiveLength(s: Suite, files: map<Path, seq<byte>>, keyPath: Path, tmp: TempSpace, input: Source, room: Capacity)
    requires Lawful(s)
    requires |input.data| >= 8 && DecodeInt64(input.data[..8]) <= 0
    requires LoadKeys(s, files, keyPath).Success? && tmp.available
    ensures DecryptRun(s, files, keyPath, tmp, input, room) == DecryptEffects(Failed(HeaderDecodeFailed), [])
  {
  }
}
