/**
 * The operations of crypto.go as step-by-step methods over the stream,
 * staging-file, MAC and file-system objects, each step returning early on
 * failure. Each method is proved to have exactly the effects that module
 * Pipeline describes.
 */
module Tulum {
  import opened Bytes
  import opened Results
  import opened Records
  import opened Primitives
  import opened Streams
  import opened Staging
  import opened Authenticator
  import opened Framing
  import opened KeyFile
  import opened Pipeline

  /** randBytes: exactly n bytes from r, or an error. */
  method RandBytes(r: Reader, n: nat) returns (b: seq<byte>, ok: bool)
    requires r.Valid()
    modifies r`pos
    ensures r.Valid()
    ensures ok <==> n <= |old(r.Remaining()).data|
    ensures ok ==> |b| == n && b == old(r.Remaining()).data[..n]
    ensures !ok ==> b == []
    ensures r.Remaining() == Source(old(r.Remaining()).data[Min(n, |old(r.Remaining()).data|)..], r.broken)
  {
    var got, full := r.ReadFull(n);
    if !full {
      return [], false;
    }
    return got, true;
  }

  /** The three draws at the top of encrypt: the encryption key, the MAC key, the IV. */
  method DrawKeys(random: Reader) returns (ks: Keys, iv: seq<byte>, ok: bool)
    requires random.Valid()
    modifies random`pos
    ensures random.Valid()
    ensures ok <==> |old(random.Remaining()).data| >= RandomNeeded
    ensures ok ==> ks == DrawnKeys(old(random.Remaining()).data) && iv == DrawnIV(old(random.Remaining()).data)
    ensures random.Remaining().data == old(random.Remaining()).data[Min(RandomNeeded, |old(random.Remaining()).data|)..]
  {
    ghost var random0 := random.Remaining().data;
    var encKey, macKey;
    encKey, ok := RandBytes(random, EncKeySize);
    if !ok {
      return Keys([], []), [], false;
    }
    macKey, ok := RandBytes(random, MacKeySize);
    if !ok {
      return Keys([], []), [], false;
    }
    iv, ok := RandBytes(random, EncIVSize);
    if !ok {
      return Keys([], []), [], false;
    }
    ks := Keys(encKey, macKey);
  }

  /**
   * io.Copy(cipher.StreamWriter{CTR, io.MultiWriter(tmp, mac)}, r): the
   * whole plaintext is encrypted; the ciphertext goes to the staging file
   * and, if that write succeeded, to the MAC. The copy fails if either the
   * staging file is full or the reader fails.
   */
  method StageCiphertext(ks: Keystream, key: seq<byte>, iv: seq<byte>, r: Reader, staged: StagingFile, mac: MacWriter)
    returns (ct: seq<byte>, ok: bool)
    requires r.Valid() && staged.Valid() && staged.data == [] && staged.pos == 0 && mac.absorbed == []
    modifies r`pos, staged, mac`absorbed
    ensures r.Valid() && staged.Valid()
    ensures r.Remaining() == Source([], r.broken)
    ensures ct == Ctr(ks, key, iv, old(r.Remaining()).data)
    ensures ok <==> Fits(staged.capacity, |ct|) && !r.broken
    ensures ok ==> staged.data == ct && mac.absorbed == ct
  {
    var pt, readOk := r.ReadAll();
    ct := Ctr(ks, key, iv, pt);
    var stagedOk := MultiWrite(staged, mac, ct);
    ok := stagedOk && readOk;
  }

  /** io.MultiWriter(tmp, mac).Write(b): the staging file first; the MAC only sees b if the staging write succeeded. */
  method MultiWrite(staged: StagingFile, mac: MacWriter, b: seq<byte>) returns (ok: bool)
    requires staged.Valid() && staged.data == [] && staged.pos == 0
    modifies staged, mac`absorbed
    ensures staged.Valid()
    ensures ok <==> Fits(staged.capacity, |b|)
    ensures ok ==> staged.data == b && mac.absorbed == old(mac.absorbed) + b
    ensures !ok ==> staged.data == Accepted(staged.capacity, b) && mac.absorbed == old(mac.absorbed)
  {
    ok := staged.Write(b);
    if ok {
      mac.Write(b);
    }
  }

  /**
   * The tail of encrypt: the 8-byte header length, then the header and the
   * staged ciphertext. Writing stops at the first short write.
   */
  method WriteEnvelope(w: Writer, header: seq<byte>, staged: StagingFile) returns (ok: bool)
    requires w.Valid() && staged.Valid() && staged.pos == 0
    modifies w`written, staged`pos
    ensures w.Valid() && staged.Valid()
    ensures ok <==> Fits(old(w.Room()), |Frame(header, staged.data)|)
    ensures w.written == old(w.written) + Accepted(old(w.Room()), Frame(header, staged.data))
  {
    ghost var room0 := w.Room();
    ghost var written0 := w.written;
    ghost var ct := staged.data;
    var prefix := EncodeInt64(|header|);
    assert Frame(header, ct) == prefix + (header + ct);
    AcceptedConcat(room0, prefix, header + ct);
    FitsSplit(room0, |prefix|, |header + ct|);
    ok := w.Write(prefix);
    if ok {
      ok := WriteBody(w, header, staged);
      assert w.written == (written0 + prefix) + Accepted(Less(room0, |prefix|), header + ct);
    }
  }

  /** The header and then the staged ciphertext, read back from the start of the staging file. */
  method WriteBody(w: Writer, header: seq<byte>, staged: StagingFile) returns (ok: bool)
    requires w.Valid() && staged.Valid() && staged.pos == 0
    modifies w`written, staged`pos
    ensures w.Valid() && staged.Valid()
    ensures ok <==> Fits(old(w.Room()), |header + staged.data|)
    ensures w.written == old(w.written) + Accepted(old(w.Room()), header + staged.data)
  {
    ghost var room0 := w.Room();
    ghost var written0 := w.written;
    ghost var ct := staged.data;
    AcceptedConcat(room0, header, ct);
    FitsSplit(room0, |header|, |ct|);
    ok := w.Write(header);
    if ok {
      var stagedCt := staged.ReadRest();
      assert stagedCt == ct;
      ok := w.Write(stagedCt);
      assert w.written == (written0 + header) + Accepted(Less(room0, |header|), ct);
    }
  }

  /**
   * encrypt(r, w, keyPath), with crypto/rand's reader passed in as
   * `random`, the scratch directory as `tmp` and the key files as `fs`.
   */
  method Encrypt(s: Suite, random: Reader, r: Reader, w: Writer, keyPath: Path, tmp: TempSpace, fs: FileSystem)
    returns (res: Outcome)
    requires random.Valid() && r.Valid() && w.Valid()
    requires random != r
    modifies random`pos, r`pos, w`written, fs`files
    ensures random.Valid() && r.Valid() && w.Valid()
    ensures var e := EncryptRun(s, old(random.Remaining()).data, old(r.Remaining()), tmp, old(w.Room()), keyPath !in fs.readOnly);
            && res == e.outcome
            && w.written == old(w.written) + e.output
            && fs.files == if e.persisted.Some? then old(fs.files)[keyPath := KeyFileBytes(s, e.persisted.value)] else old(fs.files)
    ensures random.Remaining().data == old(random.Remaining()).data[Min(RandomNeeded, |old(random.Remaining()).data|)..]
    ensures r.Remaining() == if ReachesStaging(old(random.Remaining()).data, tmp) then Source([], r.broken) else old(r.Remaining())
  {
    var ks, iv, ok := DrawKeys(random);
    if !ok {
      return Failed(RandomDrawFailed);
    }
    res := EncryptWithKeys(s, ks, iv, r, w, keyPath, tmp, fs);
  }

  /** encrypt after the three draws: stage and MAC the ciphertext, write the envelope, persist the keys. */
  method EncryptWithKeys(s: Suite, ks: Keys, iv: seq<byte>, r: Reader, w: Writer, keyPath: Path, tmp: TempSpace, fs: FileSystem)
    returns (res: Outcome)
    requires r.Valid() && w.Valid()
    modifies r`pos, w`written, fs`files
    ensures r.Valid() && w.Valid()
    ensures var e := EncryptKeyed(s, ks, iv, old(r.Remaining()), tmp, old(w.Room()), keyPath !in fs.readOnly);
            && res == e.outcome
            && w.written == old(w.written) + e.output
            && fs.files == if e.persisted.Some? then old(fs.files)[keyPath := KeyFileBytes(s, e.persisted.value)] else old(fs.files)
    ensures r.Remaining() == if tmp.available && ValidAesKeySize(|ks.encKey|) then Source([], r.broken) else old(r.Remaining())
  {
    ghost var input0 := r.Remaining();
    if !tmp.available {
      return Failed(StagingCreateFailed);
    }
    var staged := new StagingFile(tmp.capacity);
    var mac := new MacWriter(s.hmac, ks.macKey);
    if !ValidAesKeySize(|ks.encKey|) {
      return Failed(CipherInitFailed);
    }

    var ct, ok := StageCiphertext(s.keystream, ks.encKey, iv, r, staged, mac);
    if !ok {
      return Failed(StageCopyFailed);
    }
    var ctSize := |ct|;
    staged.Rewind();

    var tag := mac.Sum();
    var msg := Message(iv, tag, ctSize);
    var header := s.header.encode(msg);
    assert Frame(header, staged.data) == Envelope(s, ks, iv, input0.data);
    ok := WriteEnvelope(w, header, staged);
    if !ok {
      return Failed(OutputWriteFailed);
    }

    res := fs.PersistKeys(s, ks, keyPath);
  }

  /**
   * The header half of decrypt: binary.Read of the 8-byte length through
   * io.LimitReader(r, 8), then gob decoding through io.LimitReader(r, size).
   */
  method ReadHeader(s: Suite, r: Reader) returns (res: Result<Message, Failure>)
    requires r.Valid()
    modifies r`pos
    ensures r.Valid()
    ensures match ReadFrame(old(r.Remaining()))
            case Failure(f) => res == Failure(f)
            case Success(p) =>
              && r.Remaining() == Source(p.rest, r.broken)
              && res == match s.header.decode(p.header)
                        case None => Failure(HeaderDecodeFailed)
                        case Some(msg) => Success(msg)
  {
    ghost var input0 := r.Remaining();
    var prefix, ok := r.ReadFull(8);
    if !ok {
      return Failure(LengthPrefixReadFailed);
    }
    ghost var after := input0.data[8..];
    assert prefix == input0.data[..8] && r.Remaining().data == after;
    var msgSize := DecodeInt64(prefix);
    ghost var take := Min(Window(msgSize), |after|);
    var header;
    header, ok := r.ReadAtMost(Window(msgSize));
    assert header == after[..take] && r.Remaining().data == after[take..];
    if !ok {
      assert ReadFrame(input0) == Failure(HeaderDecodeFailed);
      return Failure(HeaderDecodeFailed);
    }
    assert ReadFrame(input0) == Success(Parsed(msgSize, header, r.Remaining().data));
    var decoded := s.header.decode(header);
    if decoded.None? {
      return Failure(HeaderDecodeFailed);
    }
    return Success(decoded.value);
  }

  /** decrypt(r, w, keyPath), with the scratch directory as `tmp` and the key files as `fs`. */
  method Decrypt(s: Suite, r: Reader, w: Writer, keyPath: Path, tmp: TempSpace, fs: FileSystem)
    returns (res: Outcome)
    requires r.Valid() && w.Valid()
    modifies r`pos, w`written
    ensures r.Valid() && w.Valid()
    ensures var d := DecryptRun(s, fs.files, keyPath, tmp, old(r.Remaining()), old(w.Room()));
            res == d.outcome && w.written == old(w.written) + d.output
    ensures w.written != old(w.written) ==> Authentic(s, fs.files, keyPath, old(r.Remaining()))
  {
    DecryptAuthenticatesFirst(s, fs.files, keyPath, tmp, r.Remaining(), w.Room());
    var keys := fs.GetKeys(s, keyPath);
    if keys.Failure? {
      return Failed(keys.error);
    }
    res := DecryptWithKeys(s, keys.value, r, w, tmp);
  }

  /** decrypt after getKeys: create the temp file and the MAC, read the header, then the payload. */
  method DecryptWithKeys(s: Suite, ks: Keys, r: Reader, w: Writer, tmp: TempSpace) returns (res: Outcome)
    requires r.Valid() && w.Valid()
    modifies r`pos, w`written
    ensures r.Valid() && w.Valid()
    ensures var d := DecryptKeyed(s, ks, tmp, old(r.Remaining()), old(w.Room()));
            res == d.outcome && w.written == old(w.written) + d.output
  {
    ghost var input0 := r.Remaining();
    if !tmp.available {
      return Failed(StagingCreateFailed);
    }
    var staged := new StagingFile(tmp.capacity);
    var mac := new MacWriter(s.hmac, ks.macKey);

    var header := ReadHeader(s, r);
    if header.Failure? {
      return Failed(header.error);
    }
    ghost var p := ReadFrame(input0).value;
    assert DecryptKeyed(s, ks, tmp, input0, w.Room()) == DecryptPayload(s, ks, tmp, header.value, r.Remaining(), w.Room());
    res := DecryptMessage(s, ks, header.value, r, w, tmp, staged, mac);
  }

  /**
   * The rest of decrypt: io.Copy of the payload into the temp file and the
   * MAC, the MAC comparison, then io.Copy(w, cipher.StreamReader{CTR, tmp}).
   */
  method DecryptMessage(s: Suite, ks: Keys, msg: Message, r: Reader, w: Writer, tmp: TempSpace, staged: StagingFile, mac: MacWriter)
    returns (res: Outcome)
    requires r.Valid() && w.Valid()
    requires staged.Valid() && staged.data == [] && staged.pos == 0 && staged.capacity == tmp.capacity
    requires mac.absorbed == [] && mac.prf == s.hmac && mac.key == ks.macKey
    modifies r`pos, w`written, staged, mac`absorbed
    ensures r.Valid() && w.Valid()
    ensures var d := DecryptPayload(s, ks, tmp, msg, old(r.Remaining()), old(w.Room()));
            res == d.outcome && w.written == old(w.written) + d.output
  {
    var ct, readOk := r.ReadAll();
    var stagedOk := MultiWrite(staged, mac, ct);
    if !stagedOk || !readOk {
      return Failed(StageCopyFailed);
    }
    staged.Rewind();
    assert mac.absorbed == ct;

    var computed := mac.Sum();
    assert computed == s.hmac(ks.macKey, ct);
    if computed != msg.mac {
      return Failed(MacMismatch);
    }
    if !ValidAesKeySize(|ks.encKey|) {
      return Failed(CipherInitFailed);
    }
    if |msg.iv| != AesBlockSize {
      return Failed(IVLengthPanic);
    }

    var stagedCt := staged.ReadRest();
    var pt := Ctr(s.keystream, ks.encKey, msg.iv, stagedCt);
    var wrote := w.Write(pt);
    if !wrote {
      return Failed(OutputWriteFailed);
    }
    return Done;
  }

  /** One encrypt call over in-memory buffers, as in the integration test: returns its result, the buffer and the key files. */
  method EncryptToBuffer(s: Suite, randomBytes: seq<byte>, plaintext: seq<byte>, files: map<Path, seq<byte>>, keyPath: Path, tmp: TempSpace)
    returns (res: Outcome, envelope: seq<byte>, files': map<Path, seq<byte>>)
    ensures var e := EncryptRun(s, randomBytes, Source(plaintext, false), tmp, Unlimited, true);
            && res == e.outcome && envelope == e.output
            && files' == if e.persisted.Some? then files[keyPath := KeyFileBytes(s, e.persisted.value)] else files
  {
    var fs := new FileSystem(files, {});
    var random := new Reader(randomBytes, false);
    var ptReader := new Reader(plaintext, false);
    var ctBuf := new Writer(Unlimited);
    res := Encrypt(s, random, ptReader, ctBuf, keyPath, tmp, fs);
    envelope, files' := ctBuf.written, fs.files;
  }

  /** One decrypt call over in-memory buffers: returns its result and what it wrote. */
  method DecryptBuffer(s: Suite, envelope: seq<byte>, files: map<Path, seq<byte>>, keyPath: Path, tmp: TempSpace)
    returns (res: Outcome, recovered: seq<byte>)
    ensures var d := DecryptRun(s, files, keyPath, tmp, Source(envelope, false), Unlimited);
            res == d.outcome && recovered == d.output
  {
    var fs := new FileSystem(files, {});
    var ctReader := new Reader(envelope, false);
    var newPT := new Writer(Unlimited);
    res := Decrypt(s, ctReader, newPT, keyPath, tmp, fs);
    recovered := newPT.written;
  }

  /**
   * The integration test: encrypt a plaintext into a buffer, decrypt the
   * buffer with the key file just written, and compare. With an unlimited
   * scratch directory and buffers it succeeds exactly when the random
   * source supplies the 80 bytes encrypt draws, and then recovers the
   * plaintext; the key file may exist beforehand.
   */
  method IntegrationRoundTrip(s: Suite, randomBytes: seq<byte>, plaintext: seq<byte>, files: map<Path, seq<byte>>, keyPath: Path)
    returns (ok: bool, recovered: seq<byte>)
    requires Lawful(s)
    requires |plaintext| < Int64Bound
    ensures ok <==> |randomBytes| >= RandomNeeded
    ensures ok ==> recovered == plaintext
  {
    var tmp := TempSpace(true, Unlimited);
    EncryptSucceeds(s, randomBytes, Source(plaintext, false), tmp, Unlimited, true);
    var res, envelope, keyFiles := EncryptToBuffer(s, randomBytes, plaintext, files, keyPath, tmp);
    if res.Failed? {
      return false, [];
    }
    EncryptThenDecrypt(s, randomBytes, plaintext, tmp, Unlimited, files, keyPath, tmp, Unlimited);
    res, recovered := DecryptBuffer(s, envelope, keyFiles, keyPath, tmp);
    ok := res == Done;
  }
}
