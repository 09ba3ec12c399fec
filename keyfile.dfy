/**
 * The key file: persistKeys writes the gob encoding of the key pair through
 * a base64 encoder, then a newline; getKeys reads it back through a base64
 * decoder and a gob decoder. The file system is a map from paths to contents.
 */
module KeyFile {
  import opened Bytes
  import opened Results
  import opened Records
  import opened Primitives

  type Path = string

  /** The bytes persistKeys leaves in the key file. */
  function KeyFileBytes(s: Suite, ks: Keys): (r: seq<byte>)
    ensures |r| > 0 && r[|r| - 1] == LineFeed
  {
    s.base64.encode(s.keyRecord.encode(ks)) + [LineFeed]
  }

  /** getKeys as a function of the file system: open, strip line breaks, base64-decode, gob-decode. */
  function LoadKeys(s: Suite, files: map<Path, seq<byte>>, path: Path): (r: Result<Keys, Failure>)
    ensures r == Failure(KeyFileOpenFailed) <==> path !in files
    ensures r.Failure? ==> r.error in {KeyFileOpenFailed, KeyFileDecodeFailed}
  {
    if path !in files then Failure(KeyFileOpenFailed)
    else
      match s.base64.decode(DropNewlines(files[path]))
      case None => Failure(KeyFileDecodeFailed)
      case Some(raw) =>
        match s.keyRecord.decode(raw)
        case None => Failure(KeyFileDecodeFailed)
        case Some(ks) => Success(ks)
  }

  /** The stored keys decode back to the same pair, whatever else the file system holds. */
  lemma KeyFileRoundTrip(s: Suite, files: map<Path, seq<byte>>, path: Path, ks: Keys)
    requires Lawful(s)
    ensures LoadKeys(s, files[path := KeyFileBytes(s, ks)], path) == Success(ks)
  {
    var raw := s.keyRecord.encode(ks);
    var text := s.base64.encode(raw);
    DropNewlinesOfLine(text);
  }

  class FileSystem {
    var files: map<Path, seq<byte>>
    /** Paths that os.OpenFile cannot open for writing. */
    const readOnly: set<Path>

    constructor (files: map<Path, seq<byte>>, readOnly: set<Path>)
      ensures this.files == files && this.readOnly == readOnly
    {
      this.files := files;
      this.readOnly := readOnly;
    }

    /**
     * persistKeys: O_CREATE|O_WRONLY|O_TRUNC, so an existing file at the
     * path is replaced, not refused. Writes after a successful open are
     * taken to succeed.
     */
    method PersistKeys(s: Suite, ks: Keys, path: Path) returns (res: Outcome)
      modifies this`files
      ensures path in readOnly ==> res == Failed(KeyFileCreateFailed) && files == old(files)
      ensures path !in readOnly ==> res == Done && files == old(files)[path := KeyFileBytes(s, ks)]
    {
      if path in readOnly {
        return Failed(KeyFileCreateFailed);
      }
      var raw := s.keyRecord.encode(ks);
      var text := s.base64.encode(raw);
      files := files[path := text + [LineFeed]];
      return Done;
    }

    /** getKeys: reads the file system and changes nothing. */
    method GetKeys(s: Suite, path: Path) returns (res: Result<Keys, Failure>)
      ensures res == LoadKeys(s, files, path)
    {
      if path !in files {
        return Failure(KeyFileOpenFailed);
      }
      var text := DropNewlines(files[path]);
      var raw := s.base64.decode(text);
      if raw.None? {
        return Failure(KeyFileDecodeFailed);
      }
      var ks := s.keyRecord.decode(raw.value);
      if ks.None? {
        return Failure(KeyFileDecodeFailed);
      }
      return Success(ks.value);
    }
  }
}
